/** Query arguments of Parsing.cpp: _parseArguments and urlDecode, with the String operations of
    WString.cpp they use. */
module QueryArgs {

  // ---------- String operations ----------

  /** The first position of `c` not before `from`, or -1. */
  ghost predicate IsIndex(s: string, c: char, from: nat, i: int) {
    if i == -1 then forall k :: from <= k < |s| ==> s[k] != c
    else from <= i < |s| && s[i] == c && forall k :: from <= k < i ==> s[k] != c
  }

  lemma {:induction false} HasIndex(s: string, c: char, from: nat)
    ensures exists i :: IsIndex(s, c, from, i)
    decreases |s| - from
  {
    if from >= |s| {
      assert IsIndex(s, c, from, -1);
    } else if s[from] == c {
      assert IsIndex(s, c, from, from);
    } else {
      HasIndex(s, c, from + 1);
      var i :| IsIndex(s, c, from + 1, i);
      assert IsIndex(s, c, from, i);
    }
  }

  ghost function Index(s: string, c: char, from: nat): (r: int)
    ensures r == -1 || from <= r < |s|
  {
    HasIndex(s, c, from);
    var i :| IsIndex(s, c, from, i);
    i
  }

  lemma IndexIs(s: string, c: char, from: nat, i: int)
    ensures IsIndex(s, c, from, i) <==> i == Index(s, c, from)
  {
    HasIndex(s, c, from);
    var r := Index(s, c, from);
    assert IsIndex(s, c, from, r);
  }

  /** A String without an embedded NUL, at which strchr and strcpy would stop. */
  predicate NulFree(s: string) {
    '\0' !in s
  }

  /** String::indexOf(char, from), which is strchr. */
  method IndexOf(s: string, c: char, from: nat) returns (r: int)
    requires NulFree(s) && c != '\0'
    ensures r == Index(s, c, from)
  {
    r := from;
    while r < |s| && s[r] != c
      invariant from <= r && forall k :: from <= k < r && k < |s| ==> s[k] != c
    {
      r := r + 1;
    }
    if r >= |s| {
      r := -1;
    }
    IndexIs(s, c, from, r);
  }

  /** String::substring: ends in either order, cut at the length. */
  function Substring(s: string, left0: nat, right0: nat): string {
    var left, right := if left0 > right0 then right0 else left0, if left0 > right0 then left0 else right0;
    if left >= |s| then "" else s[left..if right > |s| then |s| else right]
  }

  /** An int passed as unsigned int. */
  function Unsigned(i: int): nat
    requires -0x8000_0000 <= i < 0x8000_0000
  {
    if i < 0 then i + 0x1_0000_0000 else i
  }

  // ---------- percent-encoding (section 2.1 of RFC 3986) ----------

  function HexValue(c: char): (v: int)
    ensures -1 <= v < 16
  {
    if '0' <= c <= '9' then c as int - '0' as int
    else if 'a' <= c <= 'f' then c as int - 'a' as int + 10
    else if 'A' <= c <= 'F' then c as int - 'A' as int + 10
    else -1
  }

  /** strtol of "0x" and two more characters, in base 16: it stops at the first that is no digit. */
  function Strtol(hi: char, lo: char): char {
    if HexValue(hi) < 0 then '\0'
    else if HexValue(lo) < 0 then HexValue(hi) as char
    else (HexValue(hi) * 16 + HexValue(lo)) as char
  }

  /** What urlDecode makes of a text, front character by front character. */
  function Decoded(t: string): string {
    if t == "" then ""
    else if t[0] == '%' && |t| >= 3 then [Strtol(t[1], t[2])] + Decoded(t[3..])
    else [if t[0] == '+' then ' ' else t[0]] + Decoded(t[1..])
  }

  const UPPER := "0123456789ABCDEF"
  const LOWER := "0123456789abcdef"

  predicate IsHex(c: char) {
    c in UPPER || c in LOWER
  }

  /** `d` is the digit of `v`, in either case. */
  predicate Digit(d: char, v: nat) {
    v < 16 && (d == UPPER[v] || d == LOWER[v])
  }

  /** `t` is a way to write `c`: as itself, a space as `+`, or any character in two hex digits. */
  predicate Writes(t: string, c: char) {
    || (t == [c] && c != '%' && c != '+')
    || (t == "+" && c == ' ')
    || (|t| == 3 && t[0] == '%' && c as int < 256 && Digit(t[1], c as int / 16) && Digit(t[2], c as int % 16))
  }

  /** The digit ranges of strtol are the two tables. */
  lemma DigitIff(d: char, v: nat)
    ensures Digit(d, v) <==> HexValue(d) == v
  {
    if HexValue(d) == v {
      assert d == UPPER[v] || d == LOWER[v];
    }
  }

  lemma HexIff(c: char)
    ensures IsHex(c) <==> HexValue(c) >= 0
  {
    if HexValue(c) >= 0 {
      DigitIff(c, HexValue(c));
    }
    if i :| 0 <= i < 16 && (c == UPPER[i] || c == LOWER[i]) {
      DigitIff(c, i);
    }
  }

  lemma SplitByte(n: nat, hi: nat, lo: nat)
    requires hi < 16 && lo < 16
    ensures n == hi * 16 + lo <==> n < 256 && hi == n / 16 && lo == n % 16
  {
  }

  /** What an escape becomes: the character of its two digits; of its first digit alone when the
      second character is none; NUL when the first is none. */
  lemma EscapeIs(hi: char, lo: char, c: char)
    ensures Digit(hi, c as int / 16) && Digit(lo, c as int % 16) && c as int < 256 ==> Strtol(hi, lo) == c
    ensures Digit(hi, c as int) && !IsHex(lo) ==> Strtol(hi, lo) == c
    ensures !IsHex(hi) ==> Strtol(hi, lo) == '\0'
  {
    HexIff(hi);
    HexIff(lo);
    DigitIff(hi, c as int);
    DigitIff(hi, c as int / 16);
    DigitIff(lo, c as int % 16);
  }

  function Flat(w: seq<string>): string {
    if w == [] then "" else w[0] + Flat(w[1..])
  }

  predicate Encodes(w: seq<string>, v: string) {
    |w| == |v| && forall i :: 0 <= i < |v| ==> Writes(w[i], v[i])
  }

  /** Text that is an encoding decodes to what was encoded, whichever way each character was
      written and whatever follows. */
  lemma {:induction false} DecodePrefix(w: seq<string>, v: string, rest: string)
    requires Encodes(w, v)
    ensures Decoded(Flat(w) + rest) == v + Decoded(rest)
    decreases |w|
  {
    if w == [] {
      assert Flat(w) + rest == rest;
    } else {
      EncodesRest(w, v);
      DecodePrefix(w[1..], v[1..], rest);
      DecodeMore(w[0], v[0], Flat(w[1..]), v[1..], rest);
    }
  }

  lemma EncodesRest(w: seq<string>, v: string)
    requires Encodes(w, v) && w != []
    ensures Writes(w[0], v[0]) && Encodes(w[1..], v[1..]) && v == [v[0]] + v[1..]
  {
  }

  lemma {:induction false} DecodeMore(x: string, c: char, t: string, v: string, rest: string)
    requires Writes(x, c) && Decoded(t + rest) == v + Decoded(rest)
    ensures Decoded((x + t) + rest) == ([c] + v) + Decoded(rest)
  {
    DecodeOne(x, c, t + rest);
    Regroup(x, t, rest);
    Regroup([c], v, Decoded(rest));
  }

  lemma {:induction false} DecodeOne(x: string, c: char, rest: string)
    requires Writes(x, c)
    ensures Decoded(x + rest) == [c] + Decoded(rest)
  {
    assert (x + rest)[|x|..] == rest;
    if |x| == 3 {
      EscapeIs(x[1], x[2], c);
    }
  }

  /** Decoding undoes percent-encoding. */
  lemma DecodeInverts(w: seq<string>, v: string)
    requires Encodes(w, v)
    ensures Decoded(Flat(w)) == v
  {
    DecodePrefix(w, v, "");
    assert Flat(w) + "" == Flat(w);
  }

  /** A bad escape after an encoding: NUL when the first character is no hex digit, that digit's
      value when only the second is none; both characters are used up. */
  lemma {:induction false} BadEscape(w: seq<string>, v: string, hi: char, lo: char, c: char, rest: string)
    requires Encodes(w, v)
    requires (!IsHex(hi) && c == '\0') || (Digit(hi, c as int) && !IsHex(lo))
    ensures Decoded(Flat(w) + "%" + [hi, lo] + rest) == v + [c] + Decoded(rest)
  {
    var t := "%" + [hi, lo] + rest;
    DecodePrefix(w, v, t);
    EscapeIs(hi, lo, c);
    assert t[3..] == rest;
    assert Flat(w) + "%" + [hi, lo] + rest == Flat(w) + t;
    assert v + ([c] + Decoded(rest)) == v + [c] + Decoded(rest);
  }

  /** Near the end of the text a percent sign stands for itself. */
  lemma {:induction false} BarePercent(w: seq<string>, v: string, last: string)
    requires Encodes(w, v) && |last| <= 1 && last != "+"
    ensures Decoded(Flat(w) + "%" + last) == v + "%" + last
  {
    var t := "%" + last;
    DecodePrefix(w, v, t);
    assert t[1..] == last && last[|last|..] == "";
    assert last != "" ==> last == [last[0]];
    assert Decoded(last) == last;
    assert Flat(w) + "%" + last == Flat(w) + t;
  }

  predicate HexAt(t: string, i: nat) {
    i + 2 < |t| && IsHex(t[i + 1]) && IsHex(t[i + 2])
  }

  predicate WellFormed(t: string) {
    forall i :: 0 <= i < |t| && t[i] == '%' ==> HexAt(t, i)
  }

  /** Two hex digits write what strtol reads from them. */
  lemma EscapeWrites(t: string)
    requires |t| == 3 && t[0] == '%' && IsHex(t[1]) && IsHex(t[2])
    ensures Writes(t, Strtol(t[1], t[2]))
  {
    HexIff(t[1]);
    HexIff(t[2]);
    var hi, lo := HexValue(t[1]), HexValue(t[2]);
    SplitByte(16 * hi + lo, hi, lo);
    DigitIff(t[1], hi);
    DigitIff(t[2], lo);
  }

  lemma WritesHex(t: string, c: char)
    requires Writes(t, c)
    ensures (|t| == 1 && t[0] != '%') || (|t| == 3 && IsHex(t[1]) && IsHex(t[2]))
  {
  }

  function Written(t: string): seq<string> {
    if t == "" then []
    else if t[0] == '%' && |t| >= 3 then [t[..3]] + Written(t[3..])
    else [t[..1]] + Written(t[1..])
  }

  lemma WellFormedRest(t: string, n: nat)
    requires WellFormed(t) && n <= |t|
    ensures WellFormed(t[n..])
  {
    forall i | 0 <= i < |t[n..]| && t[n..][i] == '%' ensures HexAt(t[n..], i) {
      assert HexAt(t, n + i);
    }
  }

  /** Every text whose percent signs are followed by hex digits is an encoding of what it decodes to. */
  lemma {:induction false} WellFormedEncodes(t: string)
    requires WellFormed(t)
    ensures Flat(Written(t)) == t && Encodes(Written(t), Decoded(t))
    decreases |t|
  {
    if t != "" {
      assert t[0] == '%' ==> HexAt(t, 0);
      var n := if t[0] == '%' then 3 else 1;
      WellFormedRest(t, n);
      WellFormedEncodes(t[n..]);
      assert t == t[..n] + t[n..];
      if n == 3 {
        EscapeWrites(t[..3]);
      }
      EncodesOneMore(t[..n], Decoded(t)[0], Written(t[n..]), Decoded(t[n..]));
    }
  }

  lemma EncodesOneMore(x: string, c: char, w: seq<string>, v: string)
    requires Writes(x, c) && Encodes(w, v)
    ensures Encodes([x] + w, [c] + v)
  {
  }

  lemma {:induction false} EncodingIsWellFormed(w: seq<string>, v: string)
    requires Encodes(w, v)
    ensures WellFormed(Flat(w))
    decreases |w|
  {
    if w != [] {
      EncodesRest(w, v);
      EncodingIsWellFormed(w[1..], v[1..]);
      WritesHex(w[0], v[0]);
      WellFormedJoin(w[0], Flat(w[1..]));
    }
  }

  lemma WellFormedJoin(x: string, rest: string)
    requires WellFormed(rest)
    requires (|x| == 1 && x[0] != '%') || (|x| == 3 && IsHex(x[1]) && IsHex(x[2]))
    ensures WellFormed(x + rest)
  {
    var t, n := x + rest, |x|;
    assert !IsHex('%');
    forall i | 0 <= i < |t| && t[i] == '%' ensures HexAt(t, i) {
      if i >= n {
        assert rest[i - n] == '%';
        assert HexAt(rest, i - n);
        assert t[i + 1] == rest[i - n + 1] && t[i + 2] == rest[i - n + 2];
      }
    }
  }

  /** The percent-encodings of anything are exactly the texts in which every percent sign is
      followed by two hex digits. */
  lemma WellFormedIff(t: string)
    ensures WellFormed(t) <==> exists w, v :: Encodes(w, v) && Flat(w) == t
  {
    if WellFormed(t) {
      WellFormedEncodes(t);
    }
    forall w, v | Encodes(w, v) && Flat(w) == t ensures WellFormed(t) {
      EncodingIsWellFormed(w, v);
    }
  }

  method UrlDecode(text: string) returns (decoded: string)
    ensures decoded == Decoded(text)
  {
    decoded := "";
    var i := 0;
    while i < |text|
      invariant 0 <= i <= |text| && Decoded(text) == decoded + Decoded(text[i..])
    {
      var encodedChar := text[i];
      var decodedChar;
      DecodedStep(text, i, decoded);
      i := i + 1;
      if encodedChar == '%' && i + 1 < |text| {
        decodedChar := Strtol(text[i], text[i + 1]);
        i := i + 2;
      } else {
        decodedChar := if encodedChar == '+' then ' ' else encodedChar;
      }
      decoded := decoded + [decodedChar];
    }
  }

  lemma {:induction false} DecodedStep(text: string, i: nat, done: string)
    requires i < |text|
    ensures done + Decoded(text[i..]) ==
            if text[i] == '%' && i + 2 < |text| then done + [Strtol(text[i + 1], text[i + 2])] + Decoded(text[i + 3..])
            else done + [if text[i] == '+' then ' ' else text[i]] + Decoded(text[i + 1..])
  {
    var rest, n := text[i..], if text[i] == '%' && i + 2 < |text| then 3 else 1;
    assert rest[n..] == text[i + n..];
    var c := Decoded(rest)[0];
    assert Decoded(rest) == [c] + Decoded(text[i + n..]);
    assert done + ([c] + Decoded(text[i + n..])) == done + [c] + Decoded(text[i + n..]);
  }

  // ---------- arguments ----------

  datatype Arg = Arg(key: string, value: string)

  /** The pieces between the `&` signs. */
  ghost function Pieces(s: string): (p: seq<string>)
    ensures p != []
    decreases |s|
  {
    var i := Index(s, '&', 0);
    if i < 0 then [s] else [s[..i]] + Pieces(s[i + 1..])
  }

  lemma IndexFound(s: string, c: char)
    ensures c in s <==> Index(s, c, 0) >= 0
  {
    IndexIs(s, c, 0, Index(s, c, 0));
  }

  /** The argument of a piece: the key before its first `=`, and the rest decoded. */
  ghost function ArgOf(piece: string): Arg
    requires '=' in piece
  {
    IndexFound(piece, '=');
    var i := Index(piece, '=', 0);
    Arg(piece[..i], Decoded(piece[i + 1..]))
  }

  /** Pieces without `=` are dropped. */
  ghost function ArgsOf(p: seq<string>): (a: seq<Arg>)
    ensures |a| <= |p|
  {
    if p == [] then [] else (if '=' in p[0] then [ArgOf(p[0])] else []) + ArgsOf(p[1..])
  }

  ghost predicate IsParsed(s: string, a: seq<Arg>, n: nat) {
    a == ArgsOf(Pieces(s)) && n == |Pieces(s)|
  }

  /** The arguments of a text, and the number of its pieces, with or without an argument. Chosen by
      its defining property, so that the parser's loop is proved from ArgsIs alone and the solver
      does not unroll the pieces there. */
  ghost function Parsed(s: string): (seq<Arg>, nat) {
    assert IsParsed(s, ArgsOf(Pieces(s)), |Pieces(s)|);
    var a, n: nat :| IsParsed(s, a, n);
    (a, n)
  }

  ghost function Args(s: string): seq<Arg> {
    Parsed(s).0
  }

  ghost function Slots(s: string): nat {
    Parsed(s).1
  }

  lemma ArgsIs(s: string)
    ensures Args(s) == ArgsOf(Pieces(s)) && Slots(s) == |Pieces(s)|
  {
    assert IsParsed(s, ArgsOf(Pieces(s)), |Pieces(s)|);
  }

  function Joined(p: seq<string>): string
    requires p != []
  {
    if |p| == 1 then p[0] else p[0] + "&" + Joined(p[1..])
  }

  ghost predicate Apart(p: seq<string>) {
    forall k :: 0 <= k < |p| ==> '&' !in p[k]
  }

  /** The first position of `c` is where the part without `c` ends. */
  lemma IndexAt(s: string, c: char, n: nat)
    requires n <= |s|
    ensures c !in s[..n] && (n < |s| ==> s[n] == c) <==> Index(s, c, 0) == if n < |s| then n else -1
  {
    var i := if n < |s| then n else -1;
    IndexIs(s, c, 0, i);
    if IsIndex(s, c, 0, i) {
      assert forall k :: 0 <= k < n ==> s[..n][k] != c;
    } else if c !in s[..n] {
      assert forall k :: 0 <= k < n ==> s[k] == s[..n][k];
    }
  }

  /** Splitting cuts a text into pieces without `&` that are joined by `&`... */
  lemma {:induction false} SplitMeaning(s: string)
    ensures Joined(Pieces(s)) == s && Apart(Pieces(s))
    decreases |s|
  {
    var i := Index(s, '&', 0);
    IndexAt(s, '&', if i < 0 then |s| else i);
    if i < 0 {
      assert s[..|s|] == s;
    } else {
      var rest := s[i + 1..];
      SplitMeaning(rest);
      OneMorePiece(s[..i], Pieces(rest));
      assert s == s[..i] + "&" + rest;
    }
  }

  lemma {:induction false} OneMorePiece(x: string, p: seq<string>)
    requires p != [] && Apart(p) && '&' !in x
    ensures Joined([x] + p) == x + "&" + Joined(p) && Apart([x] + p)
  {
    assert ([x] + p)[1..] == p;
  }

  /** ...and no other pieces do that. */
  lemma {:induction false} SplitUnique(p: seq<string>)
    requires p != [] && Apart(p)
    ensures Pieces(Joined(p)) == p
    decreases |p|
  {
    var s, n := Joined(p), |p[0]|;
    assert s[..n] == p[0];
    IndexAt(s, '&', n);
    if |p| > 1 {
      SplitUnique(p[1..]);
      assert s[n + 1..] == Joined(p[1..]);
    }
  }

  // ---------- the two cursors of the parser ----------

  /** Searching a part of a text is searching the text from where the part starts. */
  lemma IndexWithin(s: string, c: char, pos: nat, end: nat)
    requires pos <= end <= |s|
    ensures var i := Index(s, c, pos); Index(s[pos..end], c, 0) == if 0 <= i < end then i - pos else -1
  {
    var part, i := s[pos..end], Index(s, c, pos);
    IndexIs(s, c, pos, i);
    assert forall k :: 0 <= k < |part| ==> part[k] == s[pos + k];
    IndexIs(part, c, 0, if 0 <= i < end then i - pos else -1);
  }

  /** The piece that starts at `pos`, and those after it. */
  lemma {:induction false} PieceAt(s: string, pos: nat)
    requires pos <= |s|
    ensures var next := Index(s, '&', pos);
            Pieces(s[pos..]) == if next < 0 then [s[pos..|s|]] else [s[pos..next]] + Pieces(s[next + 1..])
  {
    var rest, next := s[pos..], Index(s, '&', pos);
    IndexWithin(s, '&', pos, |s|);
    Slices(s, pos, if next < 0 then |s| - 1 else next);
  }

  lemma Slices(s: string, pos: nat, next: int)
    requires pos <= |s| && next < |s|
    ensures s[pos..|s|] == s[pos..]
    ensures pos <= next ==> s[pos..][..next - pos] == s[pos..next] && s[pos..][next - pos + 1..] == s[next + 1..]
  {
  }

  /** The first `=` from `pos` on belongs to the piece that ends at `end` or to a later one. */
  lemma EqualSignAt(s: string, pos: nat, end: nat)
    requires pos <= end <= |s|
    ensures var eq, piece := Index(s, '=', pos), s[pos..end];
            && ('=' in piece <==> 0 <= eq < end)
            && ('=' in piece ==> ArgOf(piece) == Arg(s[pos..eq], Decoded(s[eq + 1..end])))
  {
    var eq, piece := Index(s, '=', pos), s[pos..end];
    IndexWithin(s, '=', pos, end);
    IndexFound(piece, '=');
    if 0 <= eq < end {
      assert piece[..eq - pos] == s[pos..eq] && piece[eq - pos + 1..] == s[eq + 1..end];
    }
  }

  /** Up to `pos` the arguments are `done`, and there are slots for all pieces that follow. */
  ghost predicate Parsing(s: string, pos: int, done: seq<Arg>, count: int) {
    0 <= pos <= |s| && Args(s) == done + Args(s[pos..]) && |done| + Slots(s[pos..]) <= count
  }

  ghost predicate IsArgAt(s: string, pos: nat, a: seq<Arg>)
    requires pos <= |s|
  {
    var eq, next := Index(s, '=', pos), Index(s, '&', pos);
    var end := if next < 0 then |s| else next;
    a == if 0 <= eq < end then [Arg(s[pos..eq], Decoded(s[eq + 1..end]))] else []
  }

  /** The argument of the piece at `pos`, if it has one; chosen by its defining property, which
      HasArgAt gives. */
  ghost function ArgAt(s: string, pos: nat): (a: seq<Arg>)
    requires pos <= |s|
  {
    HasArgAt(s, pos);
    var a :| IsArgAt(s, pos, a);
    a
  }

  lemma HasArgAt(s: string, pos: nat)
    requires pos <= |s|
    ensures exists a :: IsArgAt(s, pos, a)
  {
    var eq, next := Index(s, '=', pos), Index(s, '&', pos);
    var end := if next < 0 then |s| else next;
    assert IsArgAt(s, pos, if 0 <= eq < end then [Arg(s[pos..eq], Decoded(s[eq + 1..end]))] else []);
  }

  lemma {:induction false} ArgAtIs(s: string, pos: nat)
    requires pos <= |s|
    ensures var next := Index(s, '&', pos);
            var piece := s[pos..if next < 0 then |s| else next];
            ArgAt(s, pos) == if '=' in piece then [ArgOf(piece)] else []
  {
    HasArgAt(s, pos);
    var next := Index(s, '&', pos);
    EqualSignAt(s, pos, if next < 0 then |s| else next);
  }

  /** One piece further; there is a slot for its argument, and after the last piece all is done. */
  lemma {:induction false} ParseNext(s: string, pos: nat, done: seq<Arg>, count: int)
    requires Parsing(s, pos, done, count)
    ensures |done| < count
    ensures var next := Index(s, '&', pos);
            if next < 0 then Args(s) == done + ArgAt(s, pos)
            else Parsing(s, next + 1, done + ArgAt(s, pos), count)
  {
    var next := Index(s, '&', pos);
    ArgsIs(s[pos..]);
    PieceAt(s, pos);
    ArgAtIs(s, pos);
    if next < 0 {
      ArgsOfOneMore(s[pos..|s|], []);
    } else {
      ArgsIs(s[next + 1..]);
      ArgsOfOneMore(s[pos..next], Pieces(s[next + 1..]));
      Regroup(done, ArgAt(s, pos), Args(s[next + 1..]));
    }
  }

  lemma {:induction false} ParseStart(s: string)
    ensures Parsing(s, 0, [], Slots(s)) && Slots(s) > 0
  {
    assert s[0..] == s;
    ParseNext(s, 0, [], Slots(s));
  }

  lemma {:induction false} ArgsOfOneMore(x: string, p: seq<string>)
    ensures ArgsOf([x] + p) == (if '=' in x then [ArgOf(x)] else []) + ArgsOf(p)
    ensures ArgsOf([x]) == if '=' in x then [ArgOf(x)] else []
  {
    assert ([x] + p)[1..] == p;
    assert ArgsOf([x][1..]) == [];
  }

  lemma Regroup<T>(a: seq<T>, b: seq<T>, c: seq<T>)
    ensures a + (b + c) == (a + b) + c
  {
  }

  class ESP8266WebServer {
    var currentArgs: array?<Arg>
    var currentArgCount: int

    /** All arguments, in order; there is a slot for every piece. */
    method ParseArguments(data: string)
      requires |data| < 0x8000_0000 && NulFree(data)
      modifies this
      ensures currentArgCount == |Args(data)|
      ensures data == "" ==> currentArgs == null
      ensures data != "" ==> currentArgs != null && fresh(currentArgs) && currentArgs.Length == |Pieces(data)|
      ensures data != "" ==> currentArgs[..currentArgCount] == Args(data)
    {
      currentArgs := null;
      if |data| == 0 {
        currentArgCount := 0;
        ArgsIs("");
        IndexAt("", '&', 0);
        return;
      }
      currentArgCount := 1;
      var i := 0;
      assert data[0..] == data;
      while i < |data|
        invariant 0 <= i <= |data| && currentArgCount - 1 + |Pieces(data[i..])| == |Pieces(data)|
        decreases |data| - i
      {
        PieceAt(data, i);
        i := IndexOf(data, '&', i);
        if i == -1 {
          break;
        }
        i := i + 1;
        currentArgCount := currentArgCount + 1;
      }
      currentArgs := new Arg[currentArgCount](_ => Arg("", ""));
      ArgsIs(data);
      var iarg := FillArgs(data, currentArgs, currentArgCount);
      currentArgCount := iarg;
    }

    /** The two substrings of a piece. */
    method ParseArg(data: string, pos: nat, equalSignIndex: int, nextArgIndex: int) returns (arg: Arg)
      requires pos <= |data| < 0x8000_0000
      requires equalSignIndex == Index(data, '=', pos) && nextArgIndex == Index(data, '&', pos)
      requires equalSignIndex != -1 && (equalSignIndex <= nextArgIndex || nextArgIndex == -1)
      ensures ArgAt(data, pos) == [arg]
    {
      IndexIs(data, '=', pos, equalSignIndex);
      IndexIs(data, '&', pos, nextArgIndex);
      HasArgAt(data, pos);
      var key := Substring(data, pos, equalSignIndex);
      var value := UrlDecode(Substring(data, equalSignIndex + 1, Unsigned(nextArgIndex)));
      arg := Arg(key, value);
    }

    /** The second loop. Its guard never ends it: while a piece is left there is a slot left. */
    method FillArgs(data: string, args: array<Arg>, count: int) returns (iarg: int)
      requires 0 < |data| < 0x8000_0000 && NulFree(data) && count == args.Length == Slots(data)
      modifies args
      ensures iarg == |Args(data)| <= count && args[..iarg] == Args(data)
    {
      var pos := 0;
      iarg := 0;
      ParseStart(data);
      assert args[..0] == [];
      while iarg < count
        invariant 0 <= iarg < count == args.Length && Filled(data, args, pos, iarg)
        decreases |data| - pos
      {
        var nextArgIndex;
        nextArgIndex, iarg := ParsePiece(data, args, pos, iarg);
        if nextArgIndex == -1 {
          return;
        }
        pos := nextArgIndex + 1;
      }
    }

    /** The slots before `iarg` hold the arguments up to `pos`, and slots are left for the rest. */
    static ghost predicate Filled(data: string, args: array<Arg>, pos: int, iarg: int)
      reads args
    {
      0 <= pos <= |data| && 0 <= iarg < args.Length && Parsing(data, pos, args[..iarg], args.Length)
    }

    /** One turn of it: a piece without `=` is skipped. */
    method ParsePiece(data: string, args: array<Arg>, pos: nat, iarg0: nat) returns (nextArgIndex: int, iarg: nat)
      requires |data| < 0x8000_0000 && NulFree(data) && Filled(data, args, pos, iarg0)
      modifies args
      ensures nextArgIndex == -1 || pos <= nextArgIndex
      ensures if nextArgIndex == -1 then iarg <= args.Length && Args(data) == args[..iarg]
              else Filled(data, args, nextArgIndex + 1, iarg)
    {
      ghost var done := args[..iarg0];
      var equalSignIndex := IndexOf(data, '=', pos);
      nextArgIndex := IndexOf(data, '&', pos);
      ParseNext(data, pos, done, args.Length);
      iarg := StoreArg(data, args, pos, iarg0, equalSignIndex, nextArgIndex);
      if nextArgIndex != -1 {
        ParseNext(data, nextArgIndex + 1, done + ArgAt(data, pos), args.Length);
      }
    }

    method StoreArg(data: string, args: array<Arg>, pos: nat, iarg0: nat, equalSignIndex: int, nextArgIndex: int)
      returns (iarg: nat)
      requires pos <= |data| < 0x8000_0000 && iarg0 < args.Length
      requires equalSignIndex == Index(data, '=', pos) && nextArgIndex == Index(data, '&', pos)
      modifies args
      ensures iarg <= args.Length && args[..iarg] == old(args[..iarg0]) + ArgAt(data, pos)
    {
      if equalSignIndex == -1 || (equalSignIndex > nextArgIndex && nextArgIndex != -1) {
        HasArgAt(data, pos);
        return iarg0;
      }
      args[iarg0] := ParseArg(data, pos, equalSignIndex, nextArgIndex);
      iarg := iarg0 + 1;
    }
  }

  // ---------- round trip ----------

  /** A field as a client sends it: its key, its value, and how each character of that is written. */
  datatype Field = Field(key: string, value: string, written: seq<string>)

  predicate Sendable(f: Field) {
    && '&' !in f.key && '=' !in f.key
    && Encodes(f.written, f.value) && '&' !in Flat(f.written)
  }

  function FieldText(f: Field): string {
    f.key + "=" + Flat(f.written)
  }

  function FieldTexts(fs: seq<Field>): (p: seq<string>)
    ensures |p| == |fs|
  {
    if fs == [] then [] else [FieldText(fs[0])] + FieldTexts(fs[1..])
  }

  function Sent(fs: seq<Field>): seq<Arg> {
    if fs == [] then [] else [Arg(fs[0].key, fs[0].value)] + Sent(fs[1..])
  }

  lemma FieldBack(f: Field)
    requires Sendable(f)
    ensures '&' !in FieldText(f) && '=' in FieldText(f) && ArgOf(FieldText(f)) == Arg(f.key, f.value)
  {
    var t, n := FieldText(f), |f.key|;
    assert t[..n] == f.key && t[n] == '=' && t[n + 1..] == Flat(f.written);
    IndexAt(t, '=', n);
    DecodeInverts(f.written, f.value);
  }

  lemma {:induction false} FieldsBack(fs: seq<Field>)
    requires forall k :: 0 <= k < |fs| ==> Sendable(fs[k])
    ensures Apart(FieldTexts(fs)) && ArgsOf(FieldTexts(fs)) == Sent(fs)
    decreases |fs|
  {
    if fs != [] {
      FieldBack(fs[0]);
      FieldsBack(fs[1..]);
      assert FieldTexts(fs)[1..] == FieldTexts(fs[1..]);
    }
  }

  /** The fields of a form, joined by `&`, are parsed back to the keys and values that were sent. */
  lemma ParseBack(fs: seq<Field>)
    requires fs != [] && forall k :: 0 <= k < |fs| ==> Sendable(fs[k])
    ensures Args(Joined(FieldTexts(fs))) == Sent(fs)
  {
    FieldsBack(fs);
    SplitUnique(FieldTexts(fs));
    ArgsIs(Joined(FieldTexts(fs)));
  }
}
