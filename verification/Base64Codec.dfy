/** base64_encode and base64_decode of simple_web_server/base64.cpp against section 4 of RFC 4648.
    Masks and shifts of unsigned bytes are written with division and remainder. */
module Base64Codec {
  import opened Arithmetic

  type Byte = b: int | 0 <= b < 256
  type Sextet = v: int | 0 <= v < 64

  const UPPER: string := "ABCDEFGHIJKLMNOPQRSTUVWXYZ"
  const LOWER: string := "abcdefghijklmnopqrstuvwxyz"
  const OTHER: string := "0123456789+/"
  const CHARS: string := UPPER + LOWER + OTHER

  // ---------- the alphabet ----------

  predicate IsBase64(c: char) {
    'A' <= c <= 'Z' || 'a' <= c <= 'z' || '0' <= c <= '9' || c == '+' || c == '/'
  }

  /** Position of a character in the alphabet, as a byte; string::npos becomes 255. */
  function Value(c: char): (v: Byte)
    ensures IsBase64(c) <==> v < 64
    ensures !IsBase64(c) <==> v == 255
  {
    if 'A' <= c <= 'Z' then c as int - 'A' as int
    else if 'a' <= c <= 'z' then c as int - 'a' as int + 26
    else if '0' <= c <= '9' then c as int - '0' as int + 52
    else if c == '+' then 62
    else if c == '/' then 63
    else 255
  }

  lemma UpperAt(v: nat)
    requires v < 26
    ensures |UPPER| == 26 && UPPER[v] as int == 'A' as int + v
  {
  }

  lemma LowerAt(v: nat)
    requires v < 26
    ensures |LOWER| == 26 && LOWER[v] as int == 'a' as int + v
  {
  }

  lemma OtherAt(v: nat)
    requires v < 12
    ensures |OTHER| == 12
    ensures if v == 10 then OTHER[v] == '+' else if v == 11 then OTHER[v] == '/' else OTHER[v] as int == '0' as int + v
  {
  }

  function CharOf(v: Sextet): (c: char)
    ensures IsBase64(c) && Value(c) == v
  {
    CharAt(v);
    CHARS[v]
  }

  lemma CharAt(v: Sextet)
    ensures |CHARS| == 64 && IsBase64(CHARS[v]) && Value(CHARS[v]) == v
  {
    UpperAt(if v < 26 then v else 0);
    LowerAt(if 26 <= v < 52 then v - 26 else 0);
    OtherAt(if 52 <= v then v - 52 else 0);
    assert CHARS[v] == if v < 26 then UPPER[v] else if v < 52 then LOWER[v - 26] else OTHER[v - 52];
  }

  /** The alphabet and the positions in it are inverse to each other. */
  lemma AlphabetInverse(v: Sextet, c: char)
    ensures CharOf(v) == c <==> IsBase64(c) && Value(c) == v
  {
    SameValue(CharOf(v), c);
  }

  lemma SameValue(c: char, d: char)
    ensures IsBase64(c) && IsBase64(d) && Value(c) == Value(d) ==> c == d
  {
  }

  // ---------- RFC 4648, section 4 ----------

  /** Three bytes as one 24-bit group, and the group as four 6-bit numbers. */
  function Group(a: Byte, b: Byte, c: Byte): nat {
    a * 65536 + b * 256 + c
  }

  function Sixth(g: nat, k: nat): Sextet
    requires k < 4
  {
    (if k == 0 then g / 262144 else if k == 1 then g / 4096 else if k == 2 then g / 64 else g) % 64
  }

  function Quad(a: Byte, b: Byte, c: Byte, n: nat): (t: string)
    requires n <= 4
    ensures |t| == 4
  {
    var g := Group(a, b, c);
    seq(4, k requires 0 <= k < 4 => if k < n then CharOf(Sixth(g, k)) else '=')
  }

  /** Whole groups, then 8 or 16 bits padded with zero bits to whole characters, and `=` to four. */
  function Rfc(b: seq<Byte>): string {
    if |b| == 0 then ""
    else if |b| == 1 then Quad(b[0], 0, 0, 2)
    else if |b| == 2 then Quad(b[0], b[1], 0, 3)
    else Quad(b[0], b[1], b[2], 4) + Rfc(b[3..])
  }

  lemma {:induction false} RfcLength(b: seq<Byte>)
    ensures |Rfc(b)| == 4 * ((|b| + 2) / 3)
  {
    if |b| >= 3 {
      RfcLength(b[3..]);
      assert (|b| + 2) / 3 == (|b[3..]| + 2) / 3 + 1;
    }
  }

  // ---------- what decoding means ----------

  predicate Alphabetic(s: string) {
    forall c <- s :: IsBase64(c)
  }

  /** The characters before the first one that is not of the alphabet, padding included. */
  function Prefix(s: string): (t: string)
    ensures Alphabetic(t)
  {
    if s == "" || !IsBase64(s[0]) then "" else [s[0]] + Prefix(s[1..])
  }

  /** Four characters as one 24-bit group, and the group as bytes. */
  function GroupOf(a: Sextet, b: Sextet, c: Sextet, d: Sextet): nat {
    a * 262144 + b * 4096 + c * 64 + d
  }

  function Third(g: nat, k: nat): Byte
    requires k < 3
  {
    (if k == 0 then g / 65536 else if k == 1 then g / 256 else g) % 256
  }

  function Cell(t: string, k: nat): Sextet
    requires Alphabetic(t)
  {
    if k < |t| then Value(t[k]) else 0
  }

  function TextGroup(t: string): nat
    requires Alphabetic(t)
  {
    GroupOf(Cell(t, 0), Cell(t, 1), Cell(t, 2), Cell(t, 3))
  }

  function Triple(t: string, n: nat): (r: seq<Byte>)
    requires n <= 3 && n <= |t| && Alphabetic(t)
    ensures |r| == n
    ensures forall k :: 0 <= k < n ==> r[k] == Third(TextGroup(t), k)
  {
    seq(n, k requires 0 <= k < n => Third(TextGroup(t), k))
  }

  /** Whole groups, then one byte from two characters or two bytes from three. */
  function Bytes(t: string): seq<Byte>
    requires Alphabetic(t)
  {
    if |t| < 2 then []
    else if |t| < 4 then Triple(t, |t| - 1)
    else Triple(t[..4], 3) + Bytes(t[4..])
  }

  function Decoded(s: string): seq<Byte> {
    Bytes(Prefix(s))
  }

  // ---------- round trips ----------

  lemma {:induction false} PrefixPast(t: string, s: string)
    requires Alphabetic(t)
    ensures Prefix(t + s) == t + Prefix(s)
  {
    if t == "" {
      assert t + s == s;
    } else {
      assert (t + s)[1..] == t[1..] + s;
      PrefixPast(t[1..], s);
    }
  }

  lemma PrefixStops(t: string, s: string)
    requires Alphabetic(t) && (s == "" || !IsBase64(s[0]))
    ensures Prefix(t + s) == t
  {
    PrefixPast(t, s);
  }

  /** The encoder's shifts: the 6-bit numbers of a group from its bytes. */
  lemma SixthIs(a: Byte, b: Byte, c: Byte)
    ensures var g := Group(a, b, c);
            && Sixth(g, 0) == a / 4
            && Sixth(g, 1) == a % 4 * 16 + b / 16
            && Sixth(g, 2) == b % 16 * 4 + c / 64
            && Sixth(g, 3) == c % 64
  {
    var g := Group(a, b, c);
    var q1, q2 := a * 16 + b / 16, a * 1024 + b * 4 + c / 64;
    DivMod(g, 262144, a / 4, a % 4 * 65536 + b * 256 + c);
    DivMod(g, 4096, q1, b % 16 * 256 + c);
    DivMod(q1, 64, a / 4, a % 4 * 16 + b / 16);
    DivMod(g, 64, q2, c % 64);
    DivMod(q2, 64, a * 16 + b / 16, b % 16 * 4 + c / 64);
  }

  /** The decoder's shifts: the bytes of a group from its 6-bit numbers. */
  lemma ThirdIs(a: Sextet, b: Sextet, c: Sextet, d: Sextet)
    ensures var g := GroupOf(a, b, c, d);
            && Third(g, 0) == a * 4 + b / 16
            && Third(g, 1) == b % 16 * 16 + c / 4
            && Third(g, 2) == c % 4 * 64 + d
  {
    var g := GroupOf(a, b, c, d);
    var q1 := a * 1024 + b * 16 + c / 4;
    DivMod(g, 65536, a * 4 + b / 16, b % 16 * 4096 + c * 64 + d);
    DivMod(g, 256, q1, c % 4 * 64 + d);
    DivMod(q1, 256, a * 4 + b / 16, b % 16 * 16 + c / 4);
  }

  /** The four numbers of a group give its bytes back. */
  lemma GroupRegrouped(a: Byte, b: Byte, c: Byte)
    ensures var g := Group(a, b, c);
            var h := GroupOf(Sixth(g, 0), Sixth(g, 1), Sixth(g, 2), Sixth(g, 3));
            && Third(h, 0) == a && Third(h, 1) == b && Third(h, 2) == c
            && (c == 0 ==> Sixth(g, 3) == 0)
            && (b == 0 && c == 0 ==> Sixth(g, 2) == 0)
  {
    SixthIs(a, b, c);
    ThirdIs(a / 4, a % 4 * 16 + b / 16, b % 16 * 4 + c / 64, c % 64);
  }

  /** The first `n` characters of a group of `n - 1` bytes decode to those bytes. */
  lemma QuadBack(a: Byte, b: Byte, c: Byte, n: nat)
    requires 2 <= n <= 4 && (n < 4 ==> c == 0) && (n < 3 ==> b == 0)
    ensures Alphabetic(Quad(a, b, c, n)[..n])
    ensures Triple(Quad(a, b, c, n)[..n], n - 1) == [a, b, c][..n - 1]
  {
    GroupRegrouped(a, b, c);
  }

  /** Decoding undoes encoding. */
  lemma {:induction false} DecodeEncode(b: seq<Byte>)
    ensures Decoded(Rfc(b)) == b
  {
    if |b| == 1 || |b| == 2 {
      DecodeLast(b);
    } else if |b| >= 3 {
      var t, rest := Quad(b[0], b[1], b[2], 4), Rfc(b[3..]);
      QuadBack(b[0], b[1], b[2], 4);
      assert t[..4] == t;
      PrefixPast(t, rest);
      BytesPast(t, Prefix(rest));
      DecodeEncode(b[3..]);
    }
  }

  lemma {:induction false} BytesPast(t: string, u: string)
    requires |t| == 4 && Alphabetic(t) && Alphabetic(u)
    ensures Alphabetic(t + u) && Bytes(t + u) == Triple(t, 3) + Bytes(u)
  {
    assert (t + u)[..4] == t && (t + u)[4..] == u;
  }

  lemma {:induction false} DecodeLast(b: seq<Byte>)
    requires 1 <= |b| <= 2
    ensures Decoded(Rfc(b)) == b
  {
    var n, t := |b| + 1, Rfc(b);
    QuadBack(b[0], if |b| == 1 then 0 else b[1], 0, n);
    assert t == t[..n] + t[n..];
    PrefixStops(t[..n], t[n..]);
  }

  /** Whole quadruples of the alphabet; at most two `=` at the end, and the bits they leave unused zero. */
  predicate Canonical(s: string) {
    var n := |Prefix(s)|;
    && |s| % 4 == 0 && |s| - n <= 2
    && (forall k :: n <= k < |s| ==> s[k] == '=')
    && (|s| - n == 1 ==> Value(s[n - 1]) % 4 == 0)
    && (|s| - n == 2 ==> Value(s[n - 1]) % 16 == 0)
  }

  lemma {:induction false} CanonicalPast(t: string, u: string)
    requires |t| == 4 && Alphabetic(t)
    ensures Canonical(t + u) <==> Canonical(u)
  {
    PrefixPast(t, u);
    PrefixOf(u);
    var n := |Prefix(u)|;
    ShiftedBy(t, u);
    assert |u| - n >= 1 && n == 0 ==> |u| % 4 != 0 || |u| - n > 2;
    assert n >= 1 ==> (t + u)[4 + n - 1] == u[n - 1];
  }

  lemma ShiftedBy(t: string, u: string)
    requires |t| == 4
    ensures forall k :: 0 <= k < |u| ==> (t + u)[4 + k] == u[k]
    ensures forall k :: 4 <= k < 4 + |u| ==> (t + u)[k] == u[k - 4]
  {
  }

  lemma {:induction false} PrefixOf(s: string)
    ensures var n := |Prefix(s)|; n <= |s| && Prefix(s) == s[..n]
  {
    if s != "" && IsBase64(s[0]) {
      PrefixOf(s[1..]);
    }
  }

  /** Every encoding is canonical. */
  lemma {:induction false} EncodingIsCanonical(b: seq<Byte>)
    ensures Canonical(Rfc(b))
  {
    if |b| == 1 || |b| == 2 {
      LastIsCanonical(b);
    } else if |b| >= 3 {
      EncodingIsCanonical(b[3..]);
      QuadBack(b[0], b[1], b[2], 4);
      var t := Quad(b[0], b[1], b[2], 4);
      assert t[..4] == t;
      CanonicalPast(t, Rfc(b[3..]));
    }
  }

  lemma {:induction false} LastIsCanonical(b: seq<Byte>)
    requires 1 <= |b| <= 2
    ensures Canonical(Rfc(b))
  {
    var n, t, b1 := |b| + 1, Rfc(b), if |b| == 1 then 0 else b[1];
    QuadBack(b[0], b1, 0, n);
    assert t == t[..n] + t[n..];
    PrefixStops(t[..n], t[n..]);
    LastBits(b[0], b1);
    assert Value(t[n - 1]) == Sixth(Group(b[0], b1, 0), n - 1);
  }

  lemma LastBits(a: Byte, b: Byte)
    ensures Sixth(Group(a, b, 0), 2) % 4 == 0 && (b == 0 ==> Sixth(Group(a, b, 0), 1) % 16 == 0)
  {
    SixthIs(a, b, 0);
  }

  /** The bytes of a group give its four numbers back. */
  lemma NumbersRegrouped(a: Sextet, b: Sextet, c: Sextet, d: Sextet)
    ensures var g := GroupOf(a, b, c, d);
            var h := Group(Third(g, 0), Third(g, 1), Third(g, 2));
            Sixth(h, 0) == a && Sixth(h, 1) == b && Sixth(h, 2) == c && Sixth(h, 3) == d
  {
    ThirdIs(a, b, c, d);
    SixthIs(a * 4 + b / 16, b % 16 * 16 + c / 4, c % 4 * 64 + d);
  }

  lemma UnusedBytes(a: Sextet, b: Sextet, c: Sextet, d: Sextet)
    ensures c % 4 == 0 && d == 0 ==> Third(GroupOf(a, b, c, d), 2) == 0
    ensures b % 16 == 0 && c == 0 ==> Third(GroupOf(a, b, c, d), 1) == 0
  {
    ThirdIs(a, b, c, d);
  }

  /** The bytes of a text group are spelled with the same characters. */
  lemma {:induction false} SpelledBack(t: string, k: nat)
    requires k < |t| <= 4 && Alphabetic(t)
    ensures var g := TextGroup(t);
            CharOf(Sixth(Group(Third(g, 0), Third(g, 1), Third(g, 2)), k)) == t[k]
  {
    NumbersRegrouped(Cell(t, 0), Cell(t, 1), Cell(t, 2), Cell(t, 3));
    AlphabetInverse(Value(t[k]), t[k]);
  }

  /** Four characters of the alphabet survive decoding and encoding. */
  lemma {:induction false} TripleBack(t: string)
    requires |t| == 4 && Alphabetic(t)
    ensures var b := Triple(t, 3); Quad(b[0], b[1], b[2], 4) == t
  {
    var b := Triple(t, 3);
    forall k | 0 <= k < 4 ensures Quad(b[0], b[1], b[2], 4)[k] == t[k] {
      SpelledBack(t, k);
      QuadAt(b[0], b[1], b[2], 4, k);
    }
  }

  lemma QuadAt(a: Byte, b: Byte, c: Byte, n: nat, k: nat)
    requires k < n <= 4
    ensures Quad(a, b, c, n)[k] == CharOf(Sixth(Group(a, b, c), k))
  {
  }

  /** So do two or three whose last leaves no bits behind. */
  lemma {:induction false} LastBack(t: string)
    requires 2 <= |t| <= 3 && Alphabetic(t) && Value(t[|t| - 1]) % (if |t| == 2 then 16 else 4) == 0
    ensures Rfc(Bytes(t)) == t + if |t| == 2 then "==" else "="
  {
    UnusedBytes(Cell(t, 0), Cell(t, 1), Cell(t, 2), Cell(t, 3));
    var b := Triple(t, |t| - 1);
    var b1 := if |t| == 2 then 0 else b[1];
    assert Rfc(b) == Quad(b[0], b1, 0, |t|);
    forall k | 0 <= k < |t| ensures Quad(b[0], b1, 0, |t|)[k] == t[k] {
      SpelledBack(t, k);
      QuadAt(b[0], b1, 0, |t|, k);
    }
  }

  lemma {:induction false} EncodeDecode(s: string)
    requires Canonical(s)
    ensures Rfc(Decoded(s)) == s
  {
    PrefixOf(s);
    var n := |Prefix(s)|;
    if n >= 4 {
      assert s == s[..4] + s[4..] && s[..4] == Prefix(s)[..4];
      PrefixPast(s[..4], s[4..]);
      CanonicalPast(s[..4], s[4..]);
      EncodeDecode(s[4..]);
      BytesPast(s[..4], Prefix(s[4..]));
      TripleBack(s[..4]);
    } else if n > 0 {
      LastBack(s[..n]);
      assert s[n..] == if n == 2 then "==" else "=";
      assert s == s[..n] + s[n..];
    }
  }

  /** Encoding undoes decoding exactly on canonical texts. */
  lemma EncodeDecodeIff(s: string)
    ensures Rfc(Decoded(s)) == s <==> Canonical(s)
  {
    if Canonical(s) {
      EncodeDecode(s);
    }
    EncodingIsCanonical(Decoded(s));
  }

  // ---------- the encoder ----------

  lemma {:induction false} RfcPast(b: seq<Byte>, t: seq<Byte>)
    requires |b| % 3 == 0
    ensures Rfc(b + t) == Rfc(b) + Rfc(t)
  {
    if b == [] {
      assert b + t == t;
    } else {
      RfcPast(b[3..], t);
      assert (b + t)[3..] == b[3..] + t;
    }
  }

  /** Four characters from three bytes. */
  method Split(three: array<Byte>, four: array<Byte>)
    requires three.Length == 3 && four.Length == 4
    modifies four
    ensures forall k :: 0 <= k < 4 ==> four[k] == Sixth(Group(three[0], three[1], three[2]), k)
  {
    SixthIs(three[0], three[1], three[2]);
    four[0] := three[0] / 4;
    four[1] := three[0] % 4 * 16 + three[1] / 16;
    four[2] := three[1] % 16 * 4 + three[2] / 64;
    four[3] := three[2] % 64;
  }

  /** The loops that append characters of the alphabet. */
  method Spell(four: array<Byte>, n: nat, ghost a: Byte, ghost b: Byte, ghost c: Byte) returns (t: string)
    requires n <= four.Length == 4 && forall k :: 0 <= k < 4 ==> four[k] == Sixth(Group(a, b, c), k)
    ensures t == Quad(a, b, c, n)[..n]
  {
    t := "";
    var i := 0;
    while i < n
      invariant 0 <= i <= n && t == Quad(a, b, c, n)[..i]
    {
      QuadAt(a, b, c, n, i);
      CharAt(four[i]);
      t := t + [CHARS[four[i]]];
      i := i + 1;
    }
  }

  method Encode(bytes: seq<Byte>) returns (ret: string)
    ensures ret == Rfc(bytes)
  {
    ret := "";
    var i, at := 0, 0;
    ghost var whole := 0;
    var three, four := new Byte[3], new Byte[4];
    while at < |bytes|
      invariant at == whole + i <= |bytes| && 0 <= i < 3 && whole % 3 == 0
      invariant ret == Rfc(bytes[..whole])
      invariant forall k :: 0 <= k < i ==> three[k] == bytes[whole + k]
    {
      three[i] := bytes[at];
      i, at := i + 1, at + 1;
      if i == 3 {
        var t := EncodeGroup(three, four);
        RfcGroup(bytes, whole + 3);
        ret := ret + t;
        i, whole := 0, whole + 3;
      }
    }
    RfcCut(bytes, whole);
    if i != 0 {
      var t := EncodeRest(three, four, i);
      ret := ret + t;
    }
  }

  /** Three bytes become four characters. */
  method EncodeGroup(three: array<Byte>, four: array<Byte>) returns (t: string)
    requires three.Length == 3 && four.Length == 4 && three != four
    modifies four
    ensures t == Quad(three[0], three[1], three[2], 4)
  {
    Split(three, four);
    t := Spell(four, 4, three[0], three[1], three[2]);
  }

  lemma {:induction false} RfcCut(b: seq<Byte>, whole: nat)
    requires whole <= |b| && whole % 3 == 0
    ensures Rfc(b) == Rfc(b[..whole]) + Rfc(b[whole..])
  {
    RfcPast(b[..whole], b[whole..]);
    assert b == b[..whole] + b[whole..];
  }

  lemma {:induction false} RfcGroup(b: seq<Byte>, at: nat)
    requires 3 <= at <= |b| && at % 3 == 0
    ensures Rfc(b[..at]) == Rfc(b[..at - 3]) + Quad(b[at - 3], b[at - 2], b[at - 1], 4)
  {
    var t := b[at - 3..at];
    assert b[..at] == b[..at - 3] + t && t[3..] == [];
    RfcPast(b[..at - 3], t);
    assert Rfc(t) == Quad(t[0], t[1], t[2], 4) + "";
  }

  /** What is left after the last whole group: filled up with zeros, cut short and padded. */
  method EncodeRest(three: array<Byte>, four: array<Byte>, rest: nat) returns (t: string)
    requires 0 < rest < three.Length == 3 && four.Length == 4 && three != four
    modifies three, four
    ensures t == Rfc(old(three[..rest]))
  {
    var i, j := rest, rest;
    ghost var b := three[..rest];
    while j < 3
      invariant i <= j <= 3
      invariant forall k :: 0 <= k < 3 ==> three[k] == if i <= k < j then 0 else old(three[k])
    {
      three[j] := 0;
      j := j + 1;
    }
    Split(three, four);
    t := Spell(four, i + 1, three[0], three[1], three[2]);
    ghost var q := Quad(three[0], three[1], three[2], rest + 1);
    while i < 3
      invariant rest <= i <= 3 && t == q[..i + 1]
    {
      t := t + "=";
      i := i + 1;
    }
  }

  // ---------- the decoder ----------

  /** std::string::find in the alphabet, cut to a byte. */
  method Find(c: char) returns (v: Byte)
    ensures v == Value(c)
  {
    CharAt(0);
    var i := 0;
    while i < |CHARS|
      invariant 0 <= i <= |CHARS| == 64
      invariant IsBase64(c) ==> i <= Value(c)
    {
      CharAt(i);
      AlphabetInverse(i, c);
      if CHARS[i] == c {
        return i;
      }
      i := i + 1;
    }
    return 255;
  }

  /** Characters, as byte codes, replaced by their positions in the alphabet. */
  method FindAll(four: array<Byte>)
    requires four.Length == 4
    modifies four
    ensures forall k :: 0 <= k < 4 ==> four[k] == Value(old(four[k]) as char)
  {
    var i := 0;
    while i < 4
      invariant 0 <= i <= 4
      invariant forall k :: 0 <= k < 4 ==>
                  four[k] == if k < i then Value(old(four[k]) as char) else old(four[k])
    {
      four[i] := Find(four[i] as char);
      i := i + 1;
    }
  }

  function MergeFirst(a: int, b: int): Byte {
    (a * 4 + b / 16 % 4) % 256
  }

  function MergeSecond(b: int, c: int): Byte {
    (b % 16 * 16 + c / 4 % 16) % 256
  }

  function MergeThird(c: int, d: int): Byte {
    (c % 4 * 64 + d) % 256
  }

  /** Three bytes from four positions; what does not fit a byte is cut off. */
  method Merge(four: array<Byte>, three: array<Byte>)
    requires four.Length == 4 && three.Length == 3
    modifies three
    ensures three[0] == MergeFirst(four[0], four[1])
    ensures three[1] == MergeSecond(four[1], four[2])
    ensures three[2] == MergeThird(four[2], four[3])
  {
    var a: int, b: int, c: int, d: int := four[0], four[1], four[2], four[3];
    three[0] := MergeFirst(a, b);
    three[1] := MergeSecond(b, c);
    three[2] := MergeThird(c, d);
  }

  /** The `n` first bytes are right as soon as the first `n + 1` positions are those of a text;
      the others may be anything, and after a text that ended early they are 255. */
  lemma MergeIs(t: string, four: seq<Byte>, n: nat)
    requires |four| == 4 && n <= 3 && n < |t| && Alphabetic(t)
    requires n < 3 ==> |t| == n + 1
    requires forall k :: 0 <= k <= n ==> four[k] == Value(t[k])
    ensures var g := TextGroup(t);
            && (n >= 1 ==> MergeFirst(four[0], four[1]) == Third(g, 0))
            && (n >= 2 ==> MergeSecond(four[1], four[2]) == Third(g, 1))
            && (n >= 3 ==> MergeThird(four[2], four[3]) == Third(g, 2))
  {
    MergeCells(Cell(t, 0), Cell(t, 1), Cell(t, 2), Cell(t, 3));
  }

  lemma MergeCells(a: Sextet, b: Sextet, c: Sextet, d: Sextet)
    ensures var g := GroupOf(a, b, c, d);
            MergeFirst(a, b) == Third(g, 0) && MergeSecond(b, c) == Third(g, 1) && MergeThird(c, d) == Third(g, 2)
  {
    ThirdIs(a, b, c, d);
    MergeFits(a, b, c, d);
  }

  lemma MergeFits(a: Sextet, b: Sextet, c: Sextet, d: Sextet)
    ensures MergeFirst(a, b) == a * 4 + b / 16
    ensures MergeSecond(b, c) == b % 16 * 16 + c / 4
    ensures MergeThird(c, d) == c % 4 * 64 + d
  {
    Small(b / 16, 4);
    Small(a * 4 + b / 16, 256);
    Small(c / 4, 16);
    Small(b % 16 * 16 + c / 4, 256);
    Small(c % 4 * 64 + d, 256);
  }

  lemma Small(n: nat, d: nat)
    requires n < d
    ensures n % d == n
  {
  }

  lemma {:induction false} BytesGroup(s: string, at: nat)
    requires 4 <= at <= |s| && at % 4 == 0 && Alphabetic(s[..at])
    ensures Alphabetic(s[..at - 4]) && Alphabetic(s[at - 4..at])
    ensures Bytes(s[..at]) == Bytes(s[..at - 4]) + Triple(s[at - 4..at], 3)
  {
    BytesCut(s[..at], at - 4);
    assert s[..at][..at - 4] == s[..at - 4] && s[..at][at - 4..] == s[at - 4..at];
  }

  lemma {:induction false} BytesCut(t: string, at: nat)
    requires Alphabetic(t) && at <= |t| && at % 4 == 0
    ensures Alphabetic(t[..at]) && Alphabetic(t[at..])
    ensures Bytes(t) == Bytes(t[..at]) + Bytes(t[at..])
  {
    if at == 0 {
      assert t[0..] == t;
    } else {
      CutPastFour(t, at);
      BytesCut(t[4..], at - 4);
      Regroup(Triple(t[..4], 3), Bytes(t[..at][4..]), Bytes(t[at..]));
    }
  }

  lemma CutPastFour(t: string, at: nat)
    requires 4 <= at <= |t|
    ensures t[4..][..at - 4] == t[..at][4..] && t[4..][at - 4..] == t[at..] && t[..at][..4] == t[..4]
  {
  }

  lemma Regroup(a: seq<Byte>, b: seq<Byte>, c: seq<Byte>)
    ensures a + (b + c) == (a + b) + c
  {
  }

  /** `at` characters are read, and all but the last `i` of them are decoded. */
  ghost predicate Decoding(s: string, at: int, i: int, ret: seq<Byte>) {
    && 0 <= i <= at <= |s| && (at - i) % 4 == 0
    && Alphabetic(s[..at]) && Alphabetic(s[..at - i]) && ret == Bytes(s[..at - i])
  }

  lemma DecodingNext(s: string, at: nat, i: nat, ret: seq<Byte>)
    requires Decoding(s, at, i, ret) && at < |s| && IsBase64(s[at])
    ensures Decoding(s, at + 1, i + 1, ret)
  {
    assert s[..at + 1] == s[..at] + [s[at]];
  }

  lemma DecodingGroup(s: string, at: nat, ret: seq<Byte>)
    requires Decoding(s, at, 4, ret)
    ensures Alphabetic(s[at - 4..at]) && Decoding(s, at, 0, ret + Triple(s[at - 4..at], 3))
  {
    BytesGroup(s, at);
  }

  lemma DecodingEnd(s: string, at: nat, i: nat, ret: seq<Byte>)
    requires Decoding(s, at, i, ret) && (at < |s| ==> !IsBase64(s[at]))
    ensures Alphabetic(s[at - i..at]) && Decoded(s) == ret + Bytes(s[at - i..at])
  {
    assert s == s[..at] + s[at..];
    PrefixStops(s[..at], s[at..]);
    BytesCut(s[..at], at - i);
    assert s[..at][..at - i] == s[..at - i] && s[..at][at - i..] == s[at - i..at];
  }

  method Decode(s: string) returns (ret: seq<Byte>)
    ensures ret == Decoded(s)
  {
    ret := [];
    var i, at := 0, 0;
    var four, three := new Byte[4], new Byte[3];
    while at < |s| && s[at] != '=' && IsBase64(s[at])
      invariant 0 <= i < 4 && Decoding(s, at, i, ret)
      invariant forall k :: 0 <= k < i ==> four[k] == s[at - i + k] as int
    {
      DecodingNext(s, at, i, ret);
      four[i] := s[at] as int;
      i, at := i + 1, at + 1;
      if i == 4 {
        DecodingGroup(s, at, ret);
        var b := DecodeGroup(s[at - 4..at], four, three, 3);
        ret := ret + b;
        i := 0;
      }
    }
    DecodingEnd(s, at, i, ret);
    if i != 0 {
      var b := DecodeRest(s[at - i..at], four, three, i);
      ret := ret + b;
    }
  }

  /** The common part of the loop and of what follows it: `n` bytes appended. */
  method DecodeGroup(ghost t: string, four: array<Byte>, three: array<Byte>, n: nat) returns (b: seq<Byte>)
    requires four.Length == 4 && three.Length == 3 && Alphabetic(t) && n <= 3 && n < |t|
    requires n < 3 ==> |t| == n + 1
    requires forall k :: 0 <= k <= n ==> four[k] == t[k] as int
    modifies four, three
    ensures b == Triple(t, n)
  {
    FindAll(four);
    Merge(four, three);
    MergeIs(t, four[..], n);
    b := [];
    var i := 0;
    while i < n
      invariant 0 <= i <= n && b == Triple(t, n)[..i]
    {
      b := b + [three[i]];
      i := i + 1;
    }
  }

  /** One to three characters left over: the missing ones count as NUL, which is not in the
      alphabet, and their bytes are not appended. */
  method DecodeRest(ghost t: string, four: array<Byte>, three: array<Byte>, i: nat) returns (b: seq<Byte>)
    requires four.Length == 4 && three.Length == 3 && 0 < i == |t| < 4 && Alphabetic(t)
    requires forall k :: 0 <= k < i ==> four[k] == t[k] as int
    modifies four, three
    ensures b == Bytes(t)
  {
    var j := i;
    while j < 4
      invariant i <= j <= 4
      invariant forall k :: 0 <= k < i ==> four[k] == t[k] as int
    {
      four[j] := 0;
      j := j + 1;
    }
    b := DecodeGroup(t, four, three, i - 1);
  }
}
