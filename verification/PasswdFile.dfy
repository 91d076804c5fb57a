/** Writing and loading the user table, as kernel/usr/usr.c does it: a cursor over the text, a bounded output buffer. */
module PasswdFile {
  import opened Passwd

  // ---------- reading ----------

  method SkipBlanks(t: string, p: nat) returns (q: nat)
    requires p <= |t|
    ensures p <= q <= |t| && t[q..] == Skip(t[p..])
  {
    q := p;
    while q < |t| && t[q] != '\0' && IsSpace(t[q]) && t[q] != '\n'
      invariant p <= q <= |t| && Skip(t[q..]) == Skip(t[p..])
    {
      assert t[q..][1..] == t[q + 1..];
      q := q + 1;
    }
  }

  /** Up to n characters of a token are copied. */
  method CopyToken(t: string, p: nat, n: nat) returns (tok: string, q: nat)
    requires p <= |t|
    ensures p <= q <= |t| && q - p == TokenLen(t[p..], n) && tok == t[p..q]
  {
    q, tok := p, [];
    while q < |t| && t[q] != '\0' && !IsSpace(t[q]) && q - p < n
      invariant p <= q <= |t| && q - p <= n && tok == t[p..q]
      invariant TokenLen(t[p..], n) == q - p + TokenLen(t[q..], n - (q - p))
    {
      tok := tok + [t[q]];
      assert t[q..][1..] == t[q + 1..];
      q := q + 1;
    }
  }

  method ReadToken(t: string, p: nat, size: nat) returns (tok: string, q: nat)
    requires p <= |t| && size > 0
    ensures p <= q <= |t| && tok == ReadTok(t[p..], size).0 && t[q..] == ReadTok(t[p..], size).1
  {
    var b := SkipBlanks(t, p);
    tok, q := CopyToken(t, b, size - 1);
    assert t[b..][..q - b] == tok && t[b..][q - b..] == t[q..];
  }

  method SkipLine(t: string, p: nat) returns (q: nat)
    requires p <= |t|
    ensures p <= q <= |t| && t[q..] == NextLine(t[p..])
  {
    q := p;
    while q < |t| && t[q] != '\0' && t[q] != '\n'
      invariant p <= q <= |t| && NextLine(t[q..]) == NextLine(t[p..])
    {
      assert t[q..][1..] == t[q + 1..];
      q := q + 1;
    }
    if q < |t| && t[q] == '\n' {
      assert t[q..][1..] == t[q + 1..];
      q := q + 1;
    }
  }

  /** u_atou */
  method ParseNumber(s: string) returns (v: nat)
    ensures v == Atou(s, 0)
  {
    v := 0;
    var i := 0;
    assert s[0..] == s;
    while i < |s| && IsDigit(s[i])
      invariant 0 <= i <= |s| && Atou(s[i..], v) == Atou(s, 0)
    {
      assert s[i..][1..] == s[i + 1..];
      v := (v * 10 + (s[i] as int - '0' as int)) % 0x1_0000_0000;
      i := i + 1;
    }
  }

  /** The cast to uid_t or gid_t. */
  method ParseId(s: string) returns (v: nat)
    ensures v == Id(s)
  {
    var n := ParseNumber(s);
    v := n % 0x1_0000;
  }

  /** is_hex64 */
  method TestHex(s: string) returns (r: bool)
    ensures r == IsHex(s)
  {
    var i := 0;
    while i < 16
      invariant 0 <= i <= 16 && i <= |s| && forall j | 0 <= j < i :: Nibble(s[j]) < 16
    {
      if i == |s| || Nibble(s[i]) == 16 { return false; }
      i := i + 1;
    }
    r := true;
  }

  /** parse_hex64 */
  method ReadHex(s: string) returns (v: nat)
    ensures v == ParseHex(s, 16, 0)
  {
    v := 0;
    var i := 0;
    assert s[0..] == s;
    while i < 16 && i < |s| && Nibble(s[i]) < 16
      invariant 0 <= i <= 16 && i <= |s| && ParseHex(s[i..], 16 - i, v) == ParseHex(s, 16, 0)
    {
      assert s[i..][1..] == s[i + 1..];
      v := (v * 16 + Nibble(s[i])) % 0x1_0000_0000_0000_0000;
      i := i + 1;
    }
  }

  /** The eight read_tok calls of a line. */
  method ReadFields(t: string, p: nat) returns (f: Fields, q: nat)
    requires p <= |t|
    ensures p <= q <= |t| && f == Split(t[p..]).0 && t[q..] == Split(t[p..]).1
  {
    var name, uid, gid, flags, home, shell, salt, hash;
    name, q := ReadToken(t, p, NAME_LEN);
    uid, q := ReadToken(t, q, 16);
    gid, q := ReadToken(t, q, 16);
    flags, q := ReadToken(t, q, 32);
    home, q := ReadToken(t, q, PATH_LEN);
    shell, q := ReadToken(t, q, PATH_LEN);
    salt, q := ReadToken(t, q, 20);
    hash, q := ReadToken(t, q, 20);
    f := Fields(name, uid, gid, flags, home, shell, salt, hash);
  }

  // ---------- writing ----------

  ghost function Ahead(w: nat): string { if w == 0 then "" else Dec(w) }

  lemma AheadNext(w: nat, c: char, s: string)
    requires w > 0 && c == DIGITS[w % 10]
    ensures Ahead(w) + s == Ahead(w / 10) + ([c] + s)
  {
    DecLast(w, c);
    assert Ahead(w) == Ahead(w / 10) + [c];
  }

  lemma DecLast(w: nat, c: char)
    requires c == DIGITS[w % 10]
    ensures Dec(w) == if w < 10 then [c] else Dec(w / 10) + [c]
  {}

  /** The digits of v, from the last to the first. */
  method Decimal(v: nat) returns (s: string)
    ensures s == Dec(v)
  {
    s := [DIGITS[v % 10]];
    var w: nat := v / 10;
    while w > 0
      invariant Dec(v) == Ahead(w) + s
    {
      AheadNext(w, DIGITS[w % 10], s);
      s := [DIGITS[w % 10]] + s;
      w := w / 10;
    }
    assert Ahead(w) + s == s;
  }

  /** fmt_hex64 */
  method FormatHex(v: nat) returns (s: array<char>)
    ensures fresh(s) && s.Length == 16 && s[..] == Hex(v, 16)
  {
    s := new char[16](_ => '0');
    var i, w := 0, v;
    HexDigits(v, 16);
    while i < 16
      invariant 0 <= i <= 16 && Hex(v, 16) == Hex(w, 16 - i) + s[16 - i..]
    {
      ghost var tail := s[16 - i..];
      s[15 - i] := DIGITS[w % 16];
      assert s[15 - i..] == [DIGITS[w % 16]] + tail;
      w := w / 16;
      i := i + 1;
    }
    assert Hex(w, 0) + s[0..] == s[..];
  }

  /** The buffer holds target up to pos. */
  ghost predicate Holds(buf: array<char>, pos: nat, target: string)
    reads buf
  {
    pos <= |target| < buf.Length && buf[..pos] == target[..pos]
  }

  /** Characters of s as long as there is room. */
  method PutText(buf: array<char>, pos: nat, s: string, ghost target: string, ghost rest: string) returns (q: nat)
    requires Holds(buf, pos, target) && target[pos..] == s + rest && rest != []
    modifies buf
    ensures q == pos + |s| && Holds(buf, q, target) && target[q..] == rest
  {
    var j := 0;
    q := pos;
    while j < |s| && q < buf.Length - 2
      invariant 0 <= j <= |s| && q == pos + j && Holds(buf, q, target)
    {
      assert target[q] == target[pos..][j];
      buf[q] := s[j];
      q, j := q + 1, j + 1;
    }
    assert target[q..] == target[pos..][|s|..];
  }

  method PutChar(buf: array<char>, pos: nat, c: char, ghost target: string, ghost rest: string) returns (q: nat)
    requires Holds(buf, pos, target) && target[pos..] == [c] + rest
    modifies buf
    ensures q == pos + 1 && Holds(buf, q, target) && target[q..] == rest
  {
    assert target[pos] == target[pos..][0];
    buf[pos] := c;
    q := pos + 1;
    assert target[q..] == target[pos..][1..];
  }

  /** A blank and the next field. */
  method PutField(buf: array<char>, pos: nat, s: string, ghost target: string, ghost rest: string) returns (q: nat)
    requires Holds(buf, pos, target) && target[pos..] == " " + s + rest && rest != []
    modifies buf
    ensures q == pos + 1 + |s| && Holds(buf, q, target) && target[q..] == rest
  {
    assert " " + s + rest == [' '] + (s + rest);
    q := PutChar(buf, pos, ' ', target, s + rest);
    q := PutText(buf, q, s, target, rest);
  }

  /** One line of usr_write_passwd. */
  method PutUser(buf: array<char>, pos: nat, u: User, ghost target: string, ghost rest: string) returns (q: nat)
    requires Holds(buf, pos, target) && target[pos..] == Join(FieldsOf(u)) + rest
    modifies buf
    ensures pos <= q && Holds(buf, q, target) && target[q..] == rest
  {
    ghost var f := FieldsOf(u);
    ghost var t8 := "\n" + rest;
    ghost var t7 := " " + f.hash + t8;
    ghost var t6 := " " + f.salt + t7;
    ghost var t5 := " " + f.shell + t6;
    ghost var t4 := " " + f.home + t5;
    ghost var t3 := " " + f.flags + t4;
    ghost var t2 := " " + f.gid + t3;
    ghost var t1 := " " + f.uid + t2;
    JoinIs(f, rest);
    q := PutText(buf, pos, u.name, target, t1);
    var d := Decimal(u.uid);
    q := PutField(buf, q, d, target, t2);
    d := Decimal(u.gid);
    q := PutField(buf, q, d, target, t3);
    q := PutField(buf, q, FlagName(u), target, t4);
    q := PutField(buf, q, u.home, target, t5);
    q := PutField(buf, q, u.shell, target, t6);
    var x := FormatHex(u.salt);
    q := PutField(buf, q, x[..], target, t7);
    x := FormatHex(u.hash);
    q := PutField(buf, q, x[..], target, t8);
    q := PutChar(buf, q, '\n', target, rest);
  }

  class Users {
    var table: seq<User>

    /** usr_init */
    constructor ()
      ensures table == [Root] && Built(table)
    {
      table := [Root];
    }

    method FindUid(uid: nat) returns (i: nat)
      ensures i == ByUid(table, uid)
    {
      i := 0;
      assert table[0..] == table;
      while i < |table| && table[i].uid != uid
        invariant 0 <= i <= |table| && ByUid(table, uid) == i + ByUid(table[i..], uid)
      {
        assert table[i..][1..] == table[i + 1..];
        i := i + 1;
      }
    }

    method FindName(name: string) returns (r: bool)
      ensures r == HasName(table, name)
    {
      var i := 0;
      while i < |table|
        invariant 0 <= i <= |table| && forall j | 0 <= j < i :: table[j].name != name
      {
        if table[i].name == name { return true; }
        i := i + 1;
      }
      r := false;
    }

    /** usr_add; drawn are the random salt and the hash of the password with it. */
    method Add(uid: nat, gid: nat, name: string, flags: (bool, bool, bool), home: string, shell: string, drawn: (nat, nat)) returns (ok: bool)
      requires uid < 0x1_0000 && gid < 0x1_0000
      modifies this
      ensures ok <==> |old(table)| < MAX_USERS && ByUid(old(table), uid) == |old(table)| && !HasName(old(table), name) && name != ""
      ensures table == old(table) + if ok then [Stored(uid, gid, name, flags, home, shell, drawn)] else []
      ensures old(Built(table)) ==> (Built(table) <==> ok ==> !HasName(old(table), Cut(name, NAME_LEN)))
      ensures old(Built(table)) && |name| < NAME_LEN ==> Built(table)
    {
      var i := FindUid(uid);
      var named := FindName(name);
      ok := |table| < MAX_USERS && i == |table| && !named && name != "";
      if ok {
        var u := Stored(uid, gid, name, flags, home, shell, drawn);
        AddBuilt(table, u);
        table := table + [u];
      }
    }

    /** usr_set_password */
    method ChangePassword(uid: nat, drawn: (nat, nat)) returns (ok: bool)
      modifies this
      ensures var i := ByUid(old(table), uid);
        ok == (i < |old(table)|) && table == if ok then old(table)[i := old(table)[i].(salt := drawn.0, hash := drawn.1)] else old(table)
      ensures old(Built(table)) ==> Built(table)
    {
      var i := FindUid(uid);
      ok := i < |table|;
      if ok {
        PasswordBuilt(table, i, drawn.0, drawn.1);
        table := table[i := table[i].(salt := drawn.0, hash := drawn.1)];
      }
    }

    /** What usr_load_passwd does with the fields of a line. */
    method Take(f: Fields, env: Entropy)
      modifies this
      ensures table == Apply(old(table), env, f)
    {
      var uid := ParseId(f.uid);
      var gid := ParseId(f.gid);
      var i := FindUid(uid);
      var named := FindName(f.name);
      if i == |table| && !named && |table| < MAX_USERS {
        var drawn := env(|table|);
        table := table + [User(f.name, uid, gid, f.flags == "wheel", f.flags == "nologin", f.flags == "locked",
                               if f.home != "" then f.home else "/", if f.shell != "" then f.shell else "/bin/asdsh", drawn.0, drawn.1)];
      }
      i := FindUid(uid);
      if i < |table| { SetPassword(i, f); }
    }

    method SetPassword(i: nat, f: Fields)
      requires i < |table|
      modifies this
      ensures table == old(table)[i := WithPassword(old(table)[i], f)]
    {
      var u := table[i];
      var h := TestHex(f.salt);
      if h {
        var v := ReadHex(f.salt);
        u := u.(salt := v);
      }
      h := TestHex(f.hash);
      if h {
        var v := ReadHex(f.hash);
        u := u.(hash := v);
      }
      table := table[i := u];
    }

    /** usr_load_passwd */
    method Load(t: string, env: Entropy) returns (n: int)
      modifies this
      ensures if t == "" then n == -1 && table == old(table) else (table, n) == Loaded(old(table), env, t, 0)
      ensures old(Built(table)) ==> Built(table)
    {
      if Built(table) { LoadedBuilt(table, env, t, 0); }
      if |t| == 0 { return -1; }
      var p, k: nat := 0, 0;
      assert t[0..] == t;
      while p < |t| && t[p] != '\0' && k < MAX_USERS
        invariant 0 <= p <= |t| && Loaded(table, env, t[p..], k) == Loaded(old(table), env, t, 0)
        decreases |t| - p
      {
        p, k := LoadTurn(t, p, k, env);
      }
      n := k;
    }

    /** One turn of its loop. */
    method LoadTurn(t: string, p: nat, k: nat, env: Entropy) returns (q: nat, n: nat)
      requires p < |t| && t[p] != '\0' && k < MAX_USERS
      modifies this
      ensures p < q <= |t| && Loaded(table, env, t[q..], n) == Loaded(old(table), env, t[p..], k)
    {
      SkipLess(t[p..]);
      var b := SkipBlanks(t, p);
      n := k;
      if b == |t| || t[b] == '#' || t[b] == '\n' || t[b] == '\0' {
        q := SkipLine(t, b);
      } else {
        SplitLess(t[b..]);
        var f;
        f, q := ReadFields(t, b);
        q := SkipLine(t, q);
        if f.name != "" && f.uid != "" && f.gid != "" {
          Take(f, env);
          n := k + 1;
        }
      }
    }

    /** usr_write_passwd into a buffer with room for the text and its end mark. */
    method Write(buf: array<char>) returns (n: nat)
      requires |Print(table)| < buf.Length
      modifies buf
      ensures n == |Print(table)| && buf[..n] == Print(table) && buf[n] == '\0'
    {
      ghost var target := Print(table);
      var i := 0;
      assert target[0..] == "#ASDPW1\n" + Lines(table);
      n := PutHeader(buf, target, Lines(table));
      assert table[0..] == table;
      while i < |table|
        invariant 0 <= i <= |table| && Holds(buf, n, target) && target[n..] == Lines(table[i..])
      {
        assert table[i..][1..] == table[i + 1..];
        n := PutUser(buf, n, table[i], target, Lines(table[i + 1..]));
        i := i + 1;
      }
      buf[n] := '\0';
    }
  }

  method PutHeader(buf: array<char>, ghost target: string, ghost rest: string) returns (n: nat)
    requires |target| < buf.Length && target == "#ASDPW1\n" + rest
    modifies buf
    ensures Holds(buf, n, target) && target[n..] == rest
  {
    var hdr := "#ASDPW1\n";
    n := 0;
    while n < |hdr| && n < buf.Length - 1
      invariant 0 <= n <= |hdr| && Holds(buf, n, target)
    {
      buf[n] := hdr[n];
      n := n + 1;
    }
  }
}
