/** The user table of kernel/usr/usr.c: its text form, written by usr_write_passwd and read by usr_load_passwd. */
module Passwd {
  import Bits

  const MAX_USERS := 64
  const NAME_LEN := 32
  const PATH_LEN := 64

  datatype User = User(name: string, uid: nat, gid: nat, wheel: bool, nologin: bool, locked: bool,
                       home: string, shell: string, salt: nat, hash: nat)

  // ---------- numbers ----------

  const DIGITS := "0123456789abcdef"

  function Dec(v: nat): string { if v < 10 then [DIGITS[v]] else Dec(v / 10) + [DIGITS[v % 10]] }

  function Hex(v: nat, n: nat): string
  {
    if n == 0 then "" else Hex(v / 16, n - 1) + [DIGITS[v % 16]]
  }

  predicate IsDigit(c: char) { '0' <= c <= '9' }

  function Atou(s: string, v: nat): nat
  {
    if s != [] && IsDigit(s[0]) then Atou(s[1..], (v * 10 + (s[0] as int - '0' as int)) % 0x1_0000_0000) else v
  }

  /** The value of a hexadecimal digit; 16 for any other character. */
  function Nibble(c: char): nat
  {
    if '0' <= c <= '9' then c as int - '0' as int
    else if 'a' <= c <= 'f' then c as int - 'a' as int + 10
    else if 'A' <= c <= 'F' then c as int - 'A' as int + 10
    else 16
  }

  predicate IsHex(s: string) { |s| >= 16 && forall i | 0 <= i < 16 :: Nibble(s[i]) < 16 }

  /** parse_hex64 from position i on, with v read so far. */
  function ParseHex(s: string, n: nat, v: nat): nat
  {
    if n == 0 || s == [] || Nibble(s[0]) == 16 then v else ParseHex(s[1..], n - 1, (v * 16 + Nibble(s[0])) % 0x1_0000_0000_0000_0000)
  }

  lemma Digit(d: nat)
    requires d < 16
    ensures Nibble(DIGITS[d]) == d && DIGITS[d] != '\0' && !IsSpace(DIGITS[d])
    ensures d < 10 ==> IsDigit(DIGITS[d]) && DIGITS[d] as int - '0' as int == d
  {}

  lemma {:induction false} DecDigits(v: nat)
    ensures Dec(v) != [] && forall i | 0 <= i < |Dec(v)| :: IsDigit(Dec(v)[i])
  {
    Digit(v % 10);
    if v >= 10 { DecDigits(v / 10); }
  }

  lemma {:induction false} AtouSnoc(s: string, c: char, v: nat)
    requires IsDigit(c) && forall i | 0 <= i < |s| :: IsDigit(s[i])
    ensures Atou(s + [c], v) == (Atou(s, v) * 10 + (c as int - '0' as int)) % 0x1_0000_0000
    decreases |s|
  {
    if s == [] {
      assert (s + [c])[1..] == [];
    } else {
      assert (s + [c])[1..] == s[1..] + [c];
      AtouSnoc(s[1..], c, (v * 10 + (s[0] as int - '0' as int)) % 0x1_0000_0000);
    }
  }

  lemma {:induction false} AtouDec(v: nat)
    requires v < 0x1_0000_0000
    ensures Atou(Dec(v), 0) == v
  {
    var c := LastDigit(v);
    if v >= 10 {
      DecDigits(v / 10);
      AtouDec(v / 10);
      AtouNext(Dec(v / 10), v / 10, c, v % 10);
    } else {
      AtouNext("", 0, c, v);
      assert "" + [c] == [c];
    }
  }

  lemma LastDigit(v: nat) returns (c: char)
    ensures IsDigit(c) && c as int - '0' as int == v % 10 && Dec(v) == if v < 10 then [c] else Dec(v / 10) + [c]
  {
    c := DIGITS[v % 10];
    Digit(v % 10);
  }

  lemma AtouNext(s: string, q: nat, c: char, d: nat)
    requires IsDigit(c) && c as int - '0' as int == d && (forall i | 0 <= i < |s| :: IsDigit(s[i])) && Atou(s, 0) == q
    ensures Atou(s + [c], 0) == (q * 10 + d) % 0x1_0000_0000
  {
    AtouSnoc(s, c, 0);
  }

  lemma {:induction false} DecLength(v: nat, n: nat, p: nat)
    requires n > 0 && p == Power10(n) && v < p
    ensures |Dec(v)| <= n
    decreases n
  {
    if v >= 10 { DecLength(v / 10, n - 1, Power10(n - 1)); }
  }

  ghost function Power10(n: nat): nat { if n == 0 then 1 else 10 * Power10(n - 1) }

  lemma {:induction false} HexDigits(v: nat, n: nat)
    ensures |Hex(v, n)| == n && forall i | 0 <= i < n :: Nibble(Hex(v, n)[i]) < 16 && !IsSpace(Hex(v, n)[i]) && Hex(v, n)[i] != '\0'
    decreases n
  {
    if n > 0 {
      Digit(v % 16);
      HexDigits(v / 16, n - 1);
    }
  }

  lemma {:induction false} ParseSnoc(s: string, c: char, v: nat)
    requires Nibble(c) < 16 && forall i | 0 <= i < |s| :: Nibble(s[i]) < 16
    ensures ParseHex(s + [c], |s| + 1, v) == (ParseHex(s, |s|, v) * 16 + Nibble(c)) % 0x1_0000_0000_0000_0000
    decreases |s|
  {
    if s == [] {
      assert (s + [c])[1..] == [];
    } else {
      assert (s + [c])[1..] == s[1..] + [c];
      ParseSnoc(s[1..], c, (v * 16 + Nibble(s[0])) % 0x1_0000_0000_0000_0000);
    }
  }

  ghost function Power16(n: nat): nat { if n == 0 then 1 else 16 * Power16(n - 1) }

  lemma {:induction false} HexRoundTrip(v: nat, n: nat)
    requires v < Power16(n) && v < 0x1_0000_0000_0000_0000
    ensures ParseHex(Hex(v, n), n, 0) == v
    decreases n
  {
    if n > 0 {
      HexDigits(v / 16, n - 1);
      Digit(v % 16);
      ParseSnoc(Hex(v / 16, n - 1), DIGITS[v % 16], 0);
      HexRoundTrip(v / 16, n - 1);
    }
  }

  // ---------- tokens ----------

  predicate IsSpace(c: char) { c == ' ' || c == '\t' || c == '\n' || c == '\r' }

  /** skip_ws */
  function Skip(s: string): (r: string)
    ensures |r| <= |s| && (r != [] ==> r[0] == '\n' || !IsSpace(r[0]))
  {
    if s != [] && s[0] != '\0' && IsSpace(s[0]) && s[0] != '\n' then Skip(s[1..]) else s
  }

  function TokenLen(s: string, n: nat): (k: nat)
    ensures k <= |s| && k <= n
  {
    if s != [] && s[0] != '\0' && !IsSpace(s[0]) && n > 0 then 1 + TokenLen(s[1..], n - 1) else 0
  }

  /** read_tok into a buffer of the given size: the token and the text behind it. */
  function ReadTok(s: string, size: nat): (r: (string, string))
    requires size > 0
    ensures |r.1| + |r.0| <= |s|
  {
    var t := Skip(s);
    var k := TokenLen(t, size - 1);
    (t[..k], t[k..])
  }

  function NextLine(s: string): (r: string)
    ensures |r| <= |s| && (s != [] && s[0] != '\0' ==> |r| < |s|)
  {
    if s == [] || s[0] == '\0' then s else if s[0] == '\n' then s[1..] else NextLine(s[1..])
  }

  /** A token as it is stored: not empty, no white space, fits its buffer. */
  ghost predicate Plain(s: string, size: nat)
  {
    0 < |s| < size && forall i | 0 <= i < |s| :: s[i] != '\0' && !IsSpace(s[i])
  }

  lemma {:induction false} TokenLenIs(s: string, rest: string, n: nat)
    requires |s| <= n && (forall i | 0 <= i < |s| :: s[i] != '\0' && !IsSpace(s[i])) && rest != [] && IsSpace(rest[0])
    ensures TokenLen(s + rest, n) == |s|
    decreases |s|
  {
    if s == [] {
      assert s + rest == rest;
    } else {
      assert (s + rest)[1..] == s[1..] + rest;
      TokenLenIs(s[1..], rest, n - 1);
    }
  }

  /** A token is read back, with or without one blank before it. */
  lemma ReadBack(s: string, rest: string, size: nat)
    requires Plain(s, size) && rest != [] && IsSpace(rest[0])
    ensures ReadTok(s + rest, size) == (s, rest) && ReadTok(" " + s + rest, size) == (s, rest)
  {
    TokenLenIs(s, rest, size - 1);
    assert (s + rest)[0] == s[0] && Skip(s + rest) == s + rest;
    assert (" " + s + rest)[1..] == s + rest;
    assert (s + rest)[..|s|] == s && (s + rest)[|s|..] == rest;
  }

  // ---------- lines ----------

  function FlagName(u: User): string
  {
    if u.wheel then "wheel" else if u.nologin then "nologin" else if u.locked then "locked" else "-"
  }

  /** The fields of a line, in order. */
  datatype Fields = Fields(name: string, uid: string, gid: string, flags: string, home: string, shell: string, salt: string, hash: string)

  function FieldsOf(u: User): Fields
  {
    Fields(u.name, Dec(u.uid), Dec(u.gid), FlagName(u), u.home, u.shell, Hex(u.salt, 16), Hex(u.hash, 16))
  }

  function Join(f: Fields): string
  {
    f.name + (" " + f.uid + (" " + f.gid + (" " + f.flags + (" " + f.home + (" " + f.shell + (" " + f.salt + (" " + f.hash + "\n")))))))
  }

  function Lines(us: seq<User>): string { if us == [] then "" else Join(FieldsOf(us[0])) + Lines(us[1..]) }

  /** The file of usr_write_passwd. */
  function Print(us: seq<User>): string { "#ASDPW1\n" + Lines(us) }

  /** A line as it stands in the file. */
  lemma LineIs(u: User)
    ensures Join(FieldsOf(u)) ==
      u.name + " " + Dec(u.uid) + " " + Dec(u.gid) + " "
      + (if u.wheel then "wheel" else if u.nologin then "nologin" else if u.locked then "locked" else "-")
      + " " + u.home + " " + u.shell + " " + Hex(u.salt, 16) + " " + Hex(u.hash, 16) + "\n"
  {
    var f := FieldsOf(u);
    LeftToRight(f.name, f.uid, f.gid, f.flags, f.home, f.shell, f.salt, f.hash);
  }

  lemma LeftToRight(a: string, b: string, c: string, d: string, e: string, f: string, g: string, h: string)
    ensures a + (" " + b + (" " + c + (" " + d + (" " + e + (" " + f + (" " + g + (" " + h + "\n")))))))
      == a + " " + b + " " + c + " " + d + " " + e + " " + f + " " + g + " " + h + "\n"
  {
    var x := " " + g + (" " + h + "\n");
    assert x == " " + g + " " + h + "\n";
    var y := " " + e + (" " + f + x);
    assert y == " " + e + " " + f + x;
    var z := " " + c + (" " + d + y);
    assert z == " " + c + " " + d + y;
    Joined(a + " " + b, " " + c + " " + d, y);
    Joined(a + " " + b + " " + c + " " + d, " " + e + " " + f, x);
  }

  lemma Joined(a: string, b: string, c: string)
    ensures a + (b + c) == a + b + c
  {}

  /** The eight tokens of a line and the text behind them. */
  function Split(s: string): (r: (Fields, string))
    ensures |r.1| + |r.0.name| <= |s|
  {
    var (name, s1) := ReadTok(s, NAME_LEN);
    var (uid, s2) := ReadTok(s1, 16);
    var (gid, s3) := ReadTok(s2, 16);
    var (flags, s4) := ReadTok(s3, 32);
    var (home, s5) := ReadTok(s4, PATH_LEN);
    var (shell, s6) := ReadTok(s5, PATH_LEN);
    var (salt, s7) := ReadTok(s6, 20);
    var (hash, s8) := ReadTok(s7, 20);
    (Fields(name, uid, gid, flags, home, shell, salt, hash), s8)
  }

  ghost predicate Tokens(f: Fields)
  {
    && Plain(f.name, NAME_LEN) && Plain(f.uid, 16) && Plain(f.gid, 16) && Plain(f.flags, 32)
    && Plain(f.home, PATH_LEN) && Plain(f.shell, PATH_LEN) && Plain(f.salt, 20) && Plain(f.hash, 20)
  }

  lemma SplitJoin(f: Fields, rest: string)
    requires Tokens(f)
    ensures Split(Join(f) + rest) == (f, "\n" + rest)
  {
    var t8 := "\n" + rest;
    var t7 := " " + f.hash + t8;
    var t6 := " " + f.salt + t7;
    var t5 := " " + f.shell + t6;
    var t4 := " " + f.home + t5;
    var t3 := " " + f.flags + t4;
    var t2 := " " + f.gid + t3;
    var t1 := " " + f.uid + t2;
    JoinIs(f, rest);
    ReadBack(f.name, t1, NAME_LEN);
    ReadBack(f.uid, t2, 16);
    ReadBack(f.gid, t3, 16);
    ReadBack(f.flags, t4, 32);
    ReadBack(f.home, t5, PATH_LEN);
    ReadBack(f.shell, t6, PATH_LEN);
    ReadBack(f.salt, t7, 20);
    ReadBack(f.hash, t8, 20);
  }

  lemma Glue(a: string, b: string, rest: string)
    ensures (" " + a + b) + rest == " " + a + (b + rest)
  {}

  lemma JoinIs(f: Fields, rest: string)
    ensures Join(f) + rest == f.name + (" " + f.uid + (" " + f.gid + (" " + f.flags + (" " + f.home + (" " + f.shell +
      (" " + f.salt + (" " + f.hash + ("\n" + rest))))))))
  {
    var t7 := " " + f.hash + "\n";
    var t6 := " " + f.salt + t7;
    var t5 := " " + f.shell + t6;
    var t4 := " " + f.home + t5;
    var t3 := " " + f.flags + t4;
    var t2 := " " + f.gid + t3;
    Glue(f.hash, "\n", rest);
    Glue(f.salt, t7, rest);
    Glue(f.shell, t6, rest);
    Glue(f.home, t5, rest);
    Glue(f.flags, t4, rest);
    Glue(f.gid, t3, rest);
    Glue(f.uid, t2, rest);
    assert (f.name + (" " + f.uid + t2)) + rest == f.name + ((" " + f.uid + t2) + rest);
  }

  // ---------- the table ----------

  /** The first user with this uid; |us| if there is none. */
  function ByUid(us: seq<User>, uid: nat): (i: nat)
    ensures i <= |us| && (i < |us| ==> us[i].uid == uid) && forall j | 0 <= j < i :: us[j].uid != uid
  {
    if us == [] || us[0].uid == uid then 0 else 1 + ByUid(us[1..], uid)
  }

  predicate HasName(us: seq<User>, name: string) { exists i | 0 <= i < |us| :: us[i].name == name }

  /** The salt and the hash of the empty password that usr_add draws for the user in slot i. */
  type Entropy = nat -> (nat, nat)

  /** (uid_t)u_atou(s), and the same for gid_t: both have 16 bits. */
  function Id(s: string): nat { Atou(s, 0) % 0x1_0000 }

  function NewUser(f: Fields, drawn: (nat, nat)): User
  {
    User(f.name, Id(f.uid), Id(f.gid), f.flags == "wheel", f.flags == "nologin", f.flags == "locked",
         if f.home != "" then f.home else "/", if f.shell != "" then f.shell else "/bin/asdsh", drawn.0, drawn.1)
  }

  function WithPassword(u: User, f: Fields): User
  {
    u.(salt := if IsHex(f.salt) then ParseHex(f.salt, 16, 0) else u.salt, hash := if IsHex(f.hash) then ParseHex(f.hash, 16, 0) else u.hash)
  }

  /** What a line with these fields does to the table. */
  function Apply(us: seq<User>, env: Entropy, f: Fields): seq<User>
  {
    var uid := Id(f.uid);
    var now := if ByUid(us, uid) == |us| && !HasName(us, f.name) && |us| < MAX_USERS then us + [NewUser(f, env(|us|))] else us;
    var i := ByUid(now, uid);
    if i < |now| then now[i := WithPassword(now[i], f)] else now
  }

  /** The table after the text s, and the number of lines taken, n of them before s. */
  function Loaded(us: seq<User>, env: Entropy, s: string, n: nat): (seq<User>, nat)
    decreases |s|
  {
    if s == [] || s[0] == '\0' || n >= MAX_USERS then
      (us, n)
    else
      var t := Skip(s);
      if Blank(t) then
        SkipLess(s);
        Loaded(us, env, NextLine(t), n)
      else
        var (f, rest) := Split(t);
        SplitLess(t);
        if f.name == "" || f.uid == "" || f.gid == "" then Loaded(us, env, NextLine(rest), n)
        else Loaded(Apply(us, env, f), env, NextLine(rest), n + 1)
  }

  /** A line to be passed over. */
  predicate Blank(t: string) { t == [] || t[0] == '#' || t[0] == '\n' || t[0] == '\0' }

  lemma SkipLess(s: string)
    requires s != [] && s[0] != '\0'
    ensures |NextLine(Skip(s))| < |s|
  {}

  lemma SplitLess(t: string)
    requires !Blank(t) && (t[0] == '\n' || !IsSpace(t[0]))
    ensures |NextLine(Split(t).1)| < |t|
  {
    assert Skip(t) == t;
  }

  // ---------- what loading restores ----------

  ghost predicate WellFormed(u: User)
  {
    && Plain(u.name, NAME_LEN) && u.name[0] != '#' && Plain(u.home, PATH_LEN) && Plain(u.shell, PATH_LEN)
    && u.uid < 0x1_0000 && u.gid < 0x1_0000 && u.salt < 0x1_0000_0000_0000_0000 && u.hash < 0x1_0000_0000_0000_0000
  }

  ghost predicate OneFlag(u: User) { !(u.wheel && u.nologin) && !(u.wheel && u.locked) && !(u.nologin && u.locked) }

  /** What a line shows of a user: the first of its flags. */
  ghost function Shown(u: User): User { u.(nologin := u.nologin && !u.wheel, locked := u.locked && !u.wheel && !u.nologin) }

  ghost function ShownAll(us: seq<User>): (s: seq<User>)
    ensures |s| == |us| && forall i | 0 <= i < |us| :: s[i] == Shown(us[i])
  {
    seq(|us|, i requires 0 <= i < |us| => Shown(us[i]))
  }

  /** Nothing is hidden exactly of users with at most one flag. */
  lemma AllShown(us: seq<User>)
    ensures ShownAll(us) == us <==> forall u | u in us :: OneFlag(u)
  {
    if ShownAll(us) == us {
      forall u | u in us ensures OneFlag(u) {
        var i :| 0 <= i < |us| && us[i] == u;
        assert ShownAll(us)[i] == Shown(u);
      }
    } else if forall u | u in us :: OneFlag(u) {
      forall i | 0 <= i < |us| ensures ShownAll(us)[i] == us[i] { assert us[i] in us; }
    }
  }

  lemma ShownNext(us: seq<User>)
    requires us != []
    ensures ShownAll(us) == [Shown(us[0])] + ShownAll(us[1..])
  {}

  /** Two entries that differ at most in salt and hash. */
  ghost predicate SameButPassword(u: User, v: User) { u.(salt := 0, hash := 0) == v.(salt := 0, hash := 0) }

  /** A user is put into the table: one with a known uid only brings salt and hash, one with a known name nothing. */
  ghost function Merge(us: seq<User>, u: User): seq<User>
  {
    var i := ByUid(us, u.uid);
    if i < |us| then us[i := us[i].(salt := u.salt, hash := u.hash)]
    else if HasName(us, u.name) || |us| >= MAX_USERS then us
    else us + [Shown(u)]
  }

  ghost function MergeAll(us: seq<User>, more: seq<User>): seq<User>
    decreases |more|
  {
    if more == [] then us else MergeAll(Merge(us, more[0]), more[1..])
  }

  lemma DecPlain(v: nat)
    requires v < 0x1_0000_0000
    ensures Plain(Dec(v), 16)
  {
    DecDigits(v);
    assert Power10(5) == 100000;
    Power10Add(5);
    DecLength(v, 10, Power10(10));
  }

  lemma Power10Add(m: nat)
    requires m == 5 && Power10(m) == 100000
    ensures Power10(2 * m) == 10000000000
  {
    assert Power10(m + 5) == 100000 * Power10(m);
  }

  lemma HexPlain(v: nat)
    requires v < 0x1_0000_0000_0000_0000
    ensures Plain(Hex(v, 16), 20) && IsHex(Hex(v, 16)) && ParseHex(Hex(v, 16), 16, 0) == v
  {
    HexDigits(v, 16);
    Power16Is();
    HexRoundTrip(v, 16);
  }

  lemma Power16Is()
    ensures Power16(16) == 0x1_0000_0000_0000_0000
  {
    assert Power16(8) == 0x1_0000_0000;
  }

  lemma FlagPlain(u: User)
    ensures Plain(FlagName(u), 32)
  {}

  lemma FieldsPlain(u: User)
    requires WellFormed(u)
    ensures Tokens(FieldsOf(u))
  {
    DecPlain(u.uid);
    DecPlain(u.gid);
    HexPlain(u.salt);
    HexPlain(u.hash);
    FlagPlain(u);
  }

  lemma ReadFlags(u: User)
    ensures var v := Shown(u); (FlagName(u) == "wheel" <==> v.wheel) && (FlagName(u) == "nologin" <==> v.nologin) && (FlagName(u) == "locked" <==> v.locked)
  {}

  lemma ReadUser(u: User, drawn: (nat, nat))
    requires WellFormed(u)
    ensures NewUser(FieldsOf(u), drawn) == Shown(u).(salt := drawn.0, hash := drawn.1)
  {
    AtouDec(u.uid);
    AtouDec(u.gid);
    ReadFlags(u);
  }

  lemma ReadPassword(v: User, u: User)
    requires WellFormed(u)
    ensures WithPassword(v, FieldsOf(u)) == v.(salt := u.salt, hash := u.hash)
  {
    HexPlain(u.salt);
    HexPlain(u.hash);
  }

  lemma ApplyMerges(us: seq<User>, env: Entropy, u: User)
    requires WellFormed(u)
    ensures Apply(us, env, FieldsOf(u)) == Merge(us, u)
  {
    var f := FieldsOf(u);
    AtouDec(u.uid);
    forall v: User ensures WithPassword(v, f) == v.(salt := u.salt, hash := u.hash) { ReadPassword(v, u); }
    ReadUser(u, env(|us|));
    ApplyIs(us, env, f, u);
  }

  lemma ApplyIs(us: seq<User>, env: Entropy, f: Fields, u: User)
    requires Id(f.uid) == u.uid && f.name == u.name
    requires forall v: User {:trigger WithPassword(v, f)} :: WithPassword(v, f) == v.(salt := u.salt, hash := u.hash)
    requires NewUser(f, env(|us|)) == Shown(u).(salt := env(|us|).0, hash := env(|us|).1)
    ensures Apply(us, env, f) == Merge(us, u)
  {
    var i := ByUid(us, u.uid);
    if i == |us| {
      var v := NewUser(f, env(|us|));
      AppendFound(us, u.uid, v);
      assert (us + [v])[|us| := Shown(u)] == us + [Shown(u)];
    }
  }

  lemma AppendFound(us: seq<User>, uid: nat, u: User)
    requires u.uid == uid && ByUid(us, uid) == |us|
    ensures ByUid(us + [u], uid) == |us|
  {
    var i := ByUid(us + [u], uid);
    assert (us + [u])[|us|] == u;
    assert forall j | 0 <= j < |us| :: (us + [u])[j] == us[j];
  }

  // ---------- the round trip ----------

  /** One printed line takes effect and is passed. */
  lemma LoadLine(us: seq<User>, env: Entropy, u: User, rest: string, n: nat)
    requires WellFormed(u) && n < MAX_USERS
    ensures Loaded(us, env, Join(FieldsOf(u)) + rest, n) == Loaded(Merge(us, u), env, rest, n + 1)
  {
    FieldsPlain(u);
    LoadFields(us, env, FieldsOf(u), rest, n);
    ApplyMerges(us, env, u);
  }

  /** A line of eight tokens takes effect and is passed. */
  lemma LoadFields(us: seq<User>, env: Entropy, f: Fields, rest: string, n: nat)
    requires Tokens(f) && f.name[0] != '#' && n < MAX_USERS
    ensures Loaded(us, env, Join(f) + rest, n) == Loaded(Apply(us, env, f), env, rest, n + 1)
  {
    var s := Join(f) + rest;
    SplitJoin(f, rest);
    assert s[0] == f.name[0];
    assert Skip(s) == s && !Blank(s);
    assert NextLine("\n" + rest) == rest by { assert ("\n" + rest)[1..] == rest; }
  }

  /** Loaded(us, env, s, n) == (now, k), folded. */
  ghost predicate Loads(us: seq<User>, env: Entropy, s: string, n: nat, now: seq<User>, k: nat)
  {
    forall i: nat {:trigger Bits.Folded(i)} | Bits.Folded(i) :: Loaded(us, env, s, n).0 == now && Loaded(us, env, s, n).1 == k
  }

  lemma LoadNext(us: seq<User>, env: Entropy, u: User, rest: string, n: nat, now: seq<User>, k: nat)
    requires WellFormed(u) && n < MAX_USERS
    ensures Loads(Merge(us, u), env, rest, n + 1, now, k) ==> Loads(us, env, Join(FieldsOf(u)) + rest, n, now, k)
  {
    assert Bits.Folded(0);
    LoadLine(us, env, u, rest, n);
  }

  lemma LoadStep(us: seq<User>, env: Entropy, f: Fields, rest: string, n: nat, now: seq<User>, k: nat)
    requires Tokens(f) && f.name[0] != '#' && n < MAX_USERS
    ensures Loads(Apply(us, env, f), env, rest, n + 1, now, k) ==> Loads(us, env, Join(f) + rest, n, now, k)
  {
    assert Bits.Folded(0);
    LoadFields(us, env, f, rest, n);
  }

  lemma LoadsIs(us: seq<User>, env: Entropy, s: string, n: nat, now: seq<User>, k: nat)
    ensures Loads(us, env, s, n, now, k) ==> Loaded(us, env, s, n) == (now, k)
  {
    assert Bits.Folded(0);
  }

  lemma {:induction false} LoadLines(us: seq<User>, env: Entropy, more: seq<User>, n: nat)
    requires (forall u | u in more :: WellFormed(u)) && n + |more| <= MAX_USERS
    ensures Loads(us, env, Lines(more), n, MergeAll(us, more), n + |more|)
    decreases |more|
  {
    if more != [] {
      var now, k := MergeAll(us, more), n + |more|;
      LoadLines(Merge(us, more[0]), env, more[1..], n + 1);
      assert now == MergeAll(Merge(us, more[0]), more[1..]) && k == n + 1 + |more[1..]|;
      LoadFirst(us, env, more, n, now, k);
    } else {
      LoadNone(us, env, n);
    }
  }

  lemma LoadFirst(us: seq<User>, env: Entropy, more: seq<User>, n: nat, now: seq<User>, k: nat)
    requires more != [] && WellFormed(more[0]) && n < MAX_USERS
    ensures Loads(Merge(us, more[0]), env, Lines(more[1..]), n + 1, now, k) ==> Loads(us, env, Lines(more), n, now, k)
  {
    LoadNext(us, env, more[0], Lines(more[1..]), n, now, k);
  }

  lemma LoadNone(us: seq<User>, env: Entropy, n: nat)
    ensures Loads(us, env, "", n, us, n)
  {}

  /** Loading a written file merges the users one by one into the table. */
  lemma LoadPrinted(us: seq<User>, env: Entropy, more: seq<User>)
    requires (forall u | u in more :: WellFormed(u)) && |more| <= MAX_USERS
    ensures Loaded(us, env, Print(more), 0) == (MergeAll(us, more), |more|)
  {
    LoadHeader(us, env, Lines(more));
    LoadLines(us, env, more, 0);
    assert Bits.Folded(0);
  }

  lemma LoadHeader(us: seq<User>, env: Entropy, rest: string)
    ensures Loaded(us, env, "#ASDPW1\n" + rest, 0) == Loaded(us, env, rest, 0)
  {
    var s := "#ASDPW1\n" + rest;
    assert Skip(s) == s && Blank(s);
    Header("#ASDPW1", rest);
    assert "#ASDPW1" + "\n" + rest == s;
  }

  lemma {:induction false} Header(h: string, rest: string)
    requires forall i | 0 <= i < |h| :: h[i] != '\n' && h[i] != '\0'
    ensures NextLine(h + "\n" + rest) == rest
  {
    var s := h + "\n" + rest;
    if h == [] {
      assert s[1..] == rest;
    } else {
      Header(h[1..], rest);
      assert s[1..] == h[1..] + "\n" + rest;
    }
  }

  ghost predicate Unique(us: seq<User>) { forall i, j | 0 <= i < j < |us| :: us[i].uid != us[j].uid && us[i].name != us[j].name }

  /** Unique, folded. */
  ghost predicate AllApart(us: seq<User>) { forall n: nat {:trigger Bits.Folded(n)} | Bits.Folded(n) :: Unique(us) }

  /** Users with new uids and names are appended. */
  lemma {:induction false} MergeNew(us: seq<User>, more: seq<User>, all: seq<User>)
    requires AllApart(us + more) && |us| + |more| <= MAX_USERS && all == us + ShownAll(more)
    ensures Merges(us, more, all)
    decreases |more|
  {
    if more == [] {
      assert all == us;
      MergesNone(us);
    } else {
      NewStays(us, more);
      ShownSplit(us, more);
      MergeNew(us + [Shown(more[0])], more[1..], all);
      MergesNext(us, more, all);
    }
  }

  lemma ShownSplit(us: seq<User>, more: seq<User>)
    requires more != []
    ensures us + ShownAll(more) == us + [Shown(more[0])] + ShownAll(more[1..])
  {
    ShownNext(more);
  }

  /** MergeAll(us, more) == all, folded. */
  ghost predicate Merges(us: seq<User>, more: seq<User>, all: seq<User>)
  {
    forall n: nat {:trigger Bits.Folded(n)} | Bits.Folded(n) :: MergeAll(us, more) == all
  }

  lemma MergesNone(us: seq<User>)
    ensures Merges(us, [], us)
  {}

  lemma MergesNext(us: seq<User>, more: seq<User>, all: seq<User>)
    requires more != [] && AllApart(us + more) && |us| + |more| <= MAX_USERS
    ensures Merges(us + [Shown(more[0])], more[1..], all) ==> Merges(us, more, all)
  {
    MergeFirst(us, more);
    assert Bits.Folded(0);
  }

  lemma MergeFirst(us: seq<User>, more: seq<User>)
    requires more != [] && AllApart(us + more) && |us + more| <= MAX_USERS
    ensures Merge(us, more[0]) == us + [Shown(more[0])]
  {
    assert Bits.Folded(0);
    assert (us + more)[|us|] == more[0];
    assert forall i | 0 <= i < |us| :: (us + more)[i] == us[i];
  }

  lemma NewStays(us: seq<User>, more: seq<User>)
    requires more != []
    ensures AllApart(us + more) ==> AllApart(us + [Shown(more[0])] + more[1..])
  {
    assert Bits.Folded(0);
    var a, b := us + more, us + [Shown(more[0])] + more[1..];
    forall i | 0 <= i < |b| ensures b[i].uid == a[i].uid && b[i].name == a[i].name {}
  }

  /** The table of usr_init. */
  const Root := User("root", 0, 0, false, false, false, "/root", "/bin/asdsh", 0, 0)

  /** A later line never changes more than salt and hash of the first entry. */
  lemma {:induction false} FirstStays(us: seq<User>, more: seq<User>)
    requires us != []
    ensures MergeAll(us, more) != [] && SameButPassword(MergeAll(us, more)[0], us[0])
    decreases |more|
  {
    if more != [] { FirstStays(Merge(us, more[0]), more[1..]); }
  }

  /** What loading after usr_init makes of a written table with root first. */
  lemma RootFirst(us: seq<User>)
    requires |us| <= MAX_USERS && Unique(us) && us != [] && SameButPassword(us[0], Root)
    ensures MergeAll([Root], us) == ShownAll(us)
  {
    MergeRoot(us[0]);
    ShownNext(us);
    RestMerges(us, ShownAll(us));
    RootNext(us, ShownAll(us));
  }

  lemma RestMerges(us: seq<User>, all: seq<User>)
    requires |us| <= MAX_USERS && Unique(us) && us != [] && all == [us[0]] + ShownAll(us[1..])
    ensures Merges([us[0]], us[1..], all)
  {
    RestApart(us);
    MergeNew([us[0]], us[1..], all);
  }

  lemma RestApart(us: seq<User>)
    requires Unique(us) && us != []
    ensures AllApart([us[0]] + us[1..])
  {
    assert [us[0]] + us[1..] == us;
  }

  lemma RootNext(us: seq<User>, all: seq<User>)
    requires us != [] && Merge([Root], us[0]) == [us[0]]
    ensures Merges([us[0]], us[1..], all) ==> MergeAll([Root], us) == all
  {
    assert Bits.Folded(0);
  }

  lemma MergeRoot(u: User)
    requires SameButPassword(u, Root)
    ensures Merge([Root], u) == [u] && Shown(u) == u
  {}

  /** A file written from a table of distinct well-formed users, loaded after usr_init, gives back exactly that table if
      and only if its first entry is the built-in root account, up to salt and hash, and no user has two flags. */
  lemma RoundTrip(us: seq<User>, env: Entropy)
    requires (forall u | u in us :: WellFormed(u)) && |us| <= MAX_USERS && Unique(us)
    ensures Loaded([Root], env, Print(us), 0) == (us, |us|) <==>
      us != [] && SameButPassword(us[0], Root) && forall u | u in us :: OneFlag(u)
  {
    LoadPrinted([Root], env, us);
    FirstStays([Root], us);
    AllShown(us);
    if us != [] && SameButPassword(us[0], Root) { RootFirst(us); }
  }

  /** Another shell for root is written, but not loaded. */
  lemma ShellOfRoot(env: Entropy)
    ensures var us := [Root.(shell := "/bin/sh")]; Loaded([Root], env, Print(us), 0).0 == [Root]
  {
    var u := Root.(shell := "/bin/sh");
    RootPlain("/bin/sh");
    LoadPrinted([Root], env, [u]);
    MergeOne(u);
  }

  /** A wheel account that is locked is no longer locked after a round trip. */
  lemma TwoFlags(env: Entropy)
    ensures var u := User("op", 1, 1, true, false, true, "/op", "/bin/sh", 1, 1);
      Loaded([Root], env, Print([Root, u]), 0).0 == [Root, u.(locked := false)]
  {
    var u := User("op", 1, 1, true, false, true, "/op", "/bin/sh", 1, 1);
    var us := [Root, u];
    OpPlain(u);
    RootPlain("/bin/asdsh");
    LoadPrinted([Root], env, us);
    RootFirst(us);
    assert ShownAll(us) == [Root, u.(locked := false)];
  }

  lemma OpPlain(u: User)
    requires u.name == "op" && u.uid == u.gid == u.salt == u.hash == 1 && u.home == "/op" && u.shell == "/bin/sh"
    ensures WellFormed(u)
  {}

  lemma RootPlain(shell: string)
    requires Plain(shell, PATH_LEN)
    ensures WellFormed(Root.(shell := shell))
  {}

  lemma MergeOne(u: User)
    requires u.uid == 0
    ensures MergeAll([Root], [u]) == [Root.(salt := u.salt, hash := u.hash)]
  {
    assert [u][1..] == [];
    assert MergeAll(Merge([Root], u), []) == Merge([Root], u);
  }

  // ---------- numbers beyond 16 bits ----------

  /** A line reaches the first account, if that has uid 0, exactly if the low 16 bits of its number are zero. */
  lemma ReachesRoot(us: seq<User>, env: Entropy, f: Fields)
    requires us != [] && us[0].uid == 0
    ensures Apply(us, env, f)[..1] == [if Atou(f.uid, 0) % 0x1_0000 == 0 then WithPassword(us[0], f) else us[0]]
  {
    var added := us + [NewUser(f, env(|us|))];
    assert added[0] == us[0];
  }

  /** Numbers are taken for the same user exactly if they agree in their low 16 bits. */
  lemma SameAccount(v: nat, w: nat)
    requires v < 0x1_0000_0000 && w < 0x1_0000_0000
    ensures Id(Dec(v)) == Id(Dec(w)) <==> v % 0x1_0000 == w % 0x1_0000
  {
    AtouDec(v);
    AtouDec(w);
  }

  /** A line for user 65536 sets the salt and hash of root. */
  lemma AliasOfRoot(env: Entropy, salt: nat, hash: nat)
    requires salt < 0x1_0000_0000_0000_0000 && hash < 0x1_0000_0000_0000_0000
    ensures Loaded([Root], env, Join(Fields("x", Dec(65536), Dec(0), "-", "/", "/bin/sh", Hex(salt, 16), Hex(hash, 16))), 0) ==
      ([Root.(salt := salt, hash := hash)], 1)
  {
    AliasLine(env, 65536, Fields("x", Dec(65536), Dec(0), "-", "/", "/bin/sh", Hex(salt, 16), Hex(hash, 16)), salt, hash);
  }

  lemma AliasLine(env: Entropy, v: nat, f: Fields, salt: nat, hash: nat)
    requires salt < 0x1_0000_0000_0000_0000 && hash < 0x1_0000_0000_0000_0000 && v < 0x1_0000_0000 && v % 0x1_0000 == 0
    requires f == Fields("x", Dec(v), Dec(0), "-", "/", "/bin/sh", Hex(salt, 16), Hex(hash, 16))
    ensures Loaded([Root], env, Join(f), 0) == ([Root.(salt := salt, hash := hash)], 1)
  {
    var now := [Root.(salt := salt, hash := hash)];
    AliasTokens(v, f, salt, hash);
    AliasApply(env, f, salt, hash);
    LoadNone(now, env, 1);
    LoadStep([Root], env, f, "", 0, now, 1);
    assert Join(f) + "" == Join(f);
    LoadsIs([Root], env, Join(f), 0, now, 1);
  }

  lemma AliasTokens(v: nat, f: Fields, salt: nat, hash: nat)
    requires salt < 0x1_0000_0000_0000_0000 && hash < 0x1_0000_0000_0000_0000 && v < 0x1_0000_0000 && v % 0x1_0000 == 0
    requires f == Fields("x", Dec(v), Dec(0), "-", "/", "/bin/sh", Hex(salt, 16), Hex(hash, 16))
    ensures Tokens(f) && Id(f.uid) == 0 && IsHex(f.salt) && IsHex(f.hash)
    ensures ParseHex(f.salt, 16, 0) == salt && ParseHex(f.hash, 16, 0) == hash
  {
    DecPlain(v);
    DecPlain(0);
    HexPlain(salt);
    HexPlain(hash);
    AtouDec(v);
  }

  lemma AliasApply(env: Entropy, f: Fields, salt: nat, hash: nat)
    requires Id(f.uid) == 0 && IsHex(f.salt) && IsHex(f.hash) && ParseHex(f.salt, 16, 0) == salt && ParseHex(f.hash, 16, 0) == hash
    ensures Apply([Root], env, f) == [Root.(salt := salt, hash := hash)]
  {}

  // ---------- the tables the kernel builds ----------

  /** Root first, uids and names distinct. */
  ghost predicate Built(us: seq<User>)
  {
    us != [] && SameButPassword(us[0], Root) && Unique(us) && |us| <= MAX_USERS
  }

  function Cut(s: string, size: nat): string
    requires size > 0
  {
    if |s| < size then s else s[..size - 1]
  }

  /** What usr_add stores; each string is cut to its buffer. */
  function Stored(uid: nat, gid: nat, name: string, flags: (bool, bool, bool), home: string, shell: string, drawn: (nat, nat)): User
  {
    User(Cut(name, NAME_LEN), uid, gid, flags.0, flags.1, flags.2, Cut(home, PATH_LEN), Cut(shell, PATH_LEN), drawn.0, drawn.1)
  }

  lemma AddBuilt(us: seq<User>, u: User)
    requires |us| < MAX_USERS && ByUid(us, u.uid) == |us|
    ensures Built(us) ==> (Built(us + [u]) <==> !HasName(us, u.name))
  {
    var now := us + [u];
    assert now[|us|] == u && forall i | 0 <= i < |us| :: now[i] == us[i];
    if HasName(us, u.name) {
      var i :| 0 <= i < |us| && us[i].name == u.name;
      assert now[i].name == now[|us|].name;
    }
  }

  lemma PasswordBuilt(us: seq<User>, i: nat, salt: nat, hash: nat)
    requires i < |us|
    ensures Built(us) ==> Built(us[i := us[i].(salt := salt, hash := hash)])
  {}

  lemma ApplyBuilt(us: seq<User>, env: Entropy, f: Fields)
    ensures Built(us) ==> Built(Apply(us, env, f))
  {
    var uid := Id(f.uid);
    var now := us;
    if ByUid(us, uid) == |us| && !HasName(us, f.name) && |us| < MAX_USERS {
      var u := NewUser(f, env(|us|));
      AddBuilt(us, u);
      now := us + [u];
    }
    var i := ByUid(now, uid);
    if i < |now| {
      var v := WithPassword(now[i], f);
      PasswordBuilt(now, i, v.salt, v.hash);
    }
  }

  /** Root is first and uids and names are distinct; kept folded. */
  ghost predicate Formed(us: seq<User>)
  {
    forall n: nat {:trigger Bits.Folded(n)} | Bits.Folded(n) :: Built(us)
  }

  lemma ApplyFormed(us: seq<User>, env: Entropy, f: Fields)
    ensures Formed(us) ==> Formed(Apply(us, env, f))
  {
    assert Bits.Folded(0);
    ApplyBuilt(us, env, f);
  }

  /** One line is taken or passed over. */
  lemma TakeNext(us: seq<User>, env: Entropy, s: string, n: nat) returns (now: seq<User>, rest: string, k: nat)
    requires s != [] && s[0] != '\0' && n < MAX_USERS
    ensures |rest| < |s| && Loaded(us, env, s, n) == Loaded(now, env, rest, k)
    ensures Formed(us) ==> Formed(now)
  {
    var t := Skip(s);
    SkipLess(s);
    now, k := us, n;
    if Blank(t) {
      rest := NextLine(t);
    } else {
      var (f, tail) := Split(t);
      SplitLess(t);
      rest := NextLine(tail);
      if !(f.name == "" || f.uid == "" || f.gid == "") {
        ApplyFormed(us, env, f);
        now, k := Apply(us, env, f), n + 1;
      }
    }
  }

  lemma {:induction false} LoadedFormed(us: seq<User>, env: Entropy, s: string, n: nat)
    ensures Formed(us) ==> Formed(Loaded(us, env, s, n).0)
    decreases |s|
  {
    if s != [] && s[0] != '\0' && n < MAX_USERS {
      var now, rest, k := TakeNext(us, env, s, n);
      LoadedFormed(now, env, rest, k);
    }
  }

  /** Whatever text is loaded, root stays first and uids and names stay distinct. */
  lemma {:induction false} LoadedBuilt(us: seq<User>, env: Entropy, s: string, n: nat)
    ensures Built(us) ==> Built(Loaded(us, env, s, n).0)
  {
    assert Bits.Folded(0);
    LoadedFormed(us, env, s, n);
  }

  /** For such a table the round trip hides at most the second flag of a user. */
  lemma BuiltRoundTrip(us: seq<User>, env: Entropy)
    requires Built(us) && forall u | u in us :: WellFormed(u)
    ensures Loaded([Root], env, Print(us), 0) == (ShownAll(us), |us|)
    ensures ShownAll(us) == us <==> forall u | u in us :: OneFlag(u)
  {
    LoadPrinted([Root], env, us);
    RootFirst(us);
    AllShown(us);
  }
}
