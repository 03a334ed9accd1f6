/**
 * The string handling the protocols rely on, written out because the model
 * has no standard library: splitting on a delimiter and joining with one
 * (Rust's `str::split` and `slice::join`), lower-case hex encoding and its
 * decoder (the `hex` crate), decimal rendering (`format!("{}", n)`) and
 * unsigned decimal parsing (`str::parse::<u32>()` / `::<usize>()`).
 */
module Text {
  import opened Wrappers

  type byte = b: int | 0 <= b < 256

  const U32Bound: nat := 0x1_0000_0000
  /** `usize` on the 64-bit targets the daemon runs on. */
  const UsizeBound: nat := 0x1_0000_0000_0000_0000

  type u32 = n: int | 0 <= n < U32Bound
  type usize = n: int | 0 <= n < UsizeBound

  function Min(a: nat, b: nat): nat
  {
    if a <= b then a else b
  }

  // ---------------------------------------------------------------------
  // Splitting and joining

  /** Rust's `split` by a single delimiter: the pieces between delimiters,
      always at least one ("" splits into [""]). */
  function Split<T(==)>(s: seq<T>, d: T): (parts: seq<seq<T>>)
    ensures |parts| >= 1
  {
    if |s| == 0 then [[]]
    else
      var rest := Split(s[1..], d);
      if s[0] == d then [[]] + rest
      else [[s[0]] + rest[0]] + rest[1..]
  }

  /** Rust's `join`: the parts with one delimiter between neighbours. */
  function Join<T>(parts: seq<seq<T>>, d: T): seq<T>
  {
    if |parts| == 0 then []
    else if |parts| == 1 then parts[0]
    else parts[0] + [d] + Join(parts[1..], d)
  }

  /** Joining the pieces of a split gives back the original. */
  lemma {:induction false} JoinSplit<T>(s: seq<T>, d: T)
    ensures Join(Split(s, d), d) == s
  {
    if |s| > 0 {
      JoinSplit(s[1..], d);
      var rest := Split(s[1..], d);
      if s[0] == d {
        assert Split(s, d) == [[]] + rest;
        assert s == [d] + s[1..];
      } else {
        var parts := Split(s, d);
        assert parts == [[s[0]] + rest[0]] + rest[1..];
        if |rest| == 1 {
          assert s == [s[0]] + s[1..];
        } else {
          assert rest == [rest[0]] + rest[1..];
          assert Join(rest, d) == rest[0] + [d] + Join(rest[1..], d);
          assert parts[1..] == rest[1..];
          assert s == [s[0]] + s[1..];
        }
      }
    }
  }

  /** How a split starts: a delimiter opens a new empty piece, anything
      else extends the first piece of the rest. */
  lemma SplitCons<T>(x: T, s: seq<T>, d: T)
    ensures Split([x] + s, d) ==
      if x == d then [[]] + Split(s, d)
      else [[x] + Split(s, d)[0]] + Split(s, d)[1..]
  {
    assert ([x] + s)[1..] == s;
  }

  /** A delimiter in the middle separates the splits of both sides. */
  lemma {:induction false} SplitAround<T>(a: seq<T>, b: seq<T>, d: T)
    ensures Split(a + [d] + b, d) == Split(a, d) + Split(b, d)
  {
    if |a| == 0 {
      assert a + [d] + b == [d] + b;
      SplitCons(d, b, d);
    } else {
      SplitAround(a[1..], b, d);
      SplitAroundStep(a[0], a[1..], b, d);
      assert a == [a[0]] + a[1..];
    }
  }

  /** The inductive step of SplitAround, one leading element at a time. */
  lemma SplitAroundStep<T>(x: T, a: seq<T>, b: seq<T>, d: T)
    requires Split(a + [d] + b, d) == Split(a, d) + Split(b, d)
    ensures Split([x] + a + [d] + b, d) == Split([x] + a, d) + Split(b, d)
  {
    assert [x] + a + [d] + b == [x] + (a + [d] + b);
    SplitCons(x, a + [d] + b, d);
    SplitCons(x, a, d);
    if x == d {
      Reassociate([[]], Split(a, d), Split(b, d));
    } else {
      ExtendFirst([x], Split(a, d), Split(b, d));
    }
  }

  lemma Reassociate<U>(p: seq<U>, q: seq<U>, r: seq<U>)
    ensures p + (q + r) == (p + q) + r
  {
  }

  lemma ExtendFirst<U>(x: seq<U>, q: seq<seq<U>>, r: seq<seq<U>>)
    requires |q| >= 1
    ensures [x + (q + r)[0]] + (q + r)[1..] == ([x + q[0]] + q[1..]) + r
  {
    assert (q + r)[0] == q[0];
    assert (q + r)[1..] == q[1..] + r;
  }

  /** A split has more than one piece exactly when the delimiter occurs. */
  lemma {:induction false} SplitFindsDelimiter<T>(s: seq<T>, d: T)
    ensures |Split(s, d)| == 1 <==> d !in s
  {
    if |s| > 0 {
      SplitFindsDelimiter(s[1..], d);
      assert s == [s[0]] + s[1..];
    }
  }

  /** A sequence without the delimiter is a single piece. */
  lemma {:induction false} SplitWithout<T>(s: seq<T>, d: T)
    requires d !in s
    ensures Split(s, d) == [s]
  {
    if |s| > 0 {
      SplitWithout(s[1..], d);
      assert s == [s[0]] + s[1..];
    }
  }

  /** Splitting a join gives back the parts, as long as no part holds the
      delimiter. */
  lemma {:induction false} SplitJoin<T>(parts: seq<seq<T>>, d: T)
    requires |parts| >= 1
    requires forall i :: 0 <= i < |parts| ==> d !in parts[i]
    ensures Split(Join(parts, d), d) == parts
  {
    if |parts| == 1 {
      SplitWithout(parts[0], d);
    } else {
      SplitJoin(parts[1..], d);
      SplitWithout(parts[0], d);
      SplitAround(parts[0], Join(parts[1..], d), d);
      assert [parts[0]] + parts[1..] == parts;
    }
  }

  /** The first piece of a join is the first part when it holds no delimiter. */
  lemma FirstPieceOfJoin<T>(parts: seq<seq<T>>, d: T)
    requires |parts| >= 1 && d !in parts[0]
    ensures Split(Join(parts, d), d)[0] == parts[0]
  {
    SplitWithout(parts[0], d);
    if |parts| > 1 {
      SplitAround(parts[0], Join(parts[1..], d), d);
    }
  }

  // ---------------------------------------------------------------------
  // Bytes and characters

  predicate IsByteString(s: string)
  {
    forall i :: 0 <= i < |s| ==> s[i] as int < 256
  }

  /** The bytes of a string whose characters all fit in one byte. */
  function Ascii(s: string): (b: seq<byte>)
    requires IsByteString(s)
    ensures |b| == |s|
  {
    seq(|s|, i requires 0 <= i < |s| => s[i] as int)
  }

  /** Bytes read one character per byte; parsing decimal digits through this
      view agrees with parsing the UTF-8 text, because digits are ASCII. */
  function Latin1(b: seq<byte>): (s: string)
    ensures |s| == |b| && IsByteString(s)
  {
    seq(|b|, i requires 0 <= i < |b| => b[i] as char)
  }

  /** A character the text lacks is a byte its bytes lack. */
  lemma AsciiAvoids(s: string, c: char)
    requires IsByteString(s) && c !in s && c as int < 256
    ensures c as int !in Ascii(s)
  {
  }

  lemma Latin1Ascii(s: string)
    requires IsByteString(s)
    ensures Latin1(Ascii(s)) == s
  {
  }

  // ---------------------------------------------------------------------
  // Hex (the `hex` crate: lower-case encode, case-insensitive decode)

  predicate IsLowerHexDigit(c: byte)
  {
    48 <= c <= 57 || 97 <= c <= 102
  }

  function HexDigit(n: nat): (c: byte)
    requires n < 16
    ensures IsLowerHexDigit(c)
  {
    if n < 10 then 48 + n else 87 + n
  }

  /** `hex::encode`: two lower-case digits per byte, high nibble first. */
  function Hex(b: seq<byte>): (h: seq<byte>)
    ensures |h| == 2 * |b|
    ensures forall i :: 0 <= i < |h| ==> IsLowerHexDigit(h[i])
  {
    if |b| == 0 then []
    else [HexDigit(b[0] / 16), HexDigit(b[0] % 16)] + Hex(b[1..])
  }

  /** The value of one hex digit in either case. */
  function HexValue(c: byte): (v: Option<nat>)
    ensures v.Some? ==> v.value < 16
  {
    if 48 <= c <= 57 then Some(c - 48)
    else if 97 <= c <= 102 then Some(c - 87)
    else if 65 <= c <= 70 then Some(c - 55)
    else None
  }

  /** `hex::decode`: fails on odd length or on a non-hex character. */
  function HexDecode(h: seq<byte>): (r: Option<seq<byte>>)
    ensures r.Some? ==> 2 * |r.value| == |h|
  {
    if |h| % 2 == 1 then None
    else if |h| == 0 then Some([])
    else
      match (HexValue(h[0]), HexValue(h[1]), HexDecode(h[2..]))
      case (Some(hi), Some(lo), Some(rest)) => Some([hi * 16 + lo] + rest)
      case _ => None
  }

  /** Decoding an encoding gives back the bytes. */
  lemma {:induction false} HexRoundTrip(b: seq<byte>)
    ensures HexDecode(Hex(b)) == Some(b)
  {
    if |b| > 0 {
      HexRoundTrip(b[1..]);
      var h := Hex(b);
      assert h[2..] == Hex(b[1..]);
      assert HexValue(h[0]) == Some(b[0] / 16);
      assert HexValue(h[1]) == Some(b[0] % 16);
      assert [b[0]] + b[1..] == b;
    }
  }

  /** An encoding never holds a byte that is not a lower-case hex digit,
      so it never holds a delimiter such as `Z` or `*`. */
  lemma HexAvoids(b: seq<byte>, c: byte)
    requires !IsLowerHexDigit(c)
    ensures c !in Hex(b)
  {
  }

  // ---------------------------------------------------------------------
  // Decimal rendering and parsing

  predicate IsDigit(c: char)
  {
    '0' <= c <= '9'
  }

  predicate AllDigits(s: string)
  {
    forall i :: 0 <= i < |s| ==> IsDigit(s[i])
  }

  function DigitChar(n: nat): (c: char)
    requires n < 10
    ensures IsDigit(c)
  {
    (48 + n) as char
  }

  /** `format!("{}", n)`: the shortest decimal rendering. */
  function Decimal(n: nat): (s: string)
    ensures |s| >= 1 && AllDigits(s)
  {
    if n < 10 then [DigitChar(n)] else Decimal(n / 10) + [DigitChar(n % 10)]
  }

  /** The value of a string of decimal digits. */
  function DigitsValue(s: string): nat
    requires AllDigits(s)
  {
    if |s| == 0 then 0
    else DigitsValue(s[..|s| - 1]) * 10 + (s[|s| - 1] as int - 48)
  }

  /** `s.parse::<uN>()` for an unsigned type whose values lie below `bound`:
      an optional `+`, then at least one digit and nothing else, and a value
      in range; anything else is a parse error. */
  function ParseUnsigned(s: string, bound: nat): (r: Option<nat>)
    ensures r.Some? ==> r.value < bound
  {
    var digits := if |s| > 0 && s[0] == '+' then s[1..] else s;
    if |digits| == 0 || !AllDigits(digits) then None
    else if DigitsValue(digits) < bound then Some(DigitsValue(digits))
    else None
  }

  function ParseU32(s: string): (r: Option<u32>)
    ensures r.Some? <==> ParseUnsigned(s, U32Bound).Some?
    ensures r.Some? ==> r.value == ParseUnsigned(s, U32Bound).value
  {
    match ParseUnsigned(s, U32Bound)
    case Some(n) => Some(n)
    case None => None
  }

  lemma {:induction false} DecimalValue(n: nat)
    ensures DigitsValue(Decimal(n)) == n
  {
    if n >= 10 {
      DecimalValue(n / 10);
      var s := Decimal(n);
      assert s[..|s| - 1] == Decimal(n / 10);
    }
  }

  /** Parsing a rendering gives back the number, for every number in range. */
  lemma ParseDecimal(n: nat, bound: nat)
    requires n < bound
    ensures ParseUnsigned(Decimal(n), bound) == Some(n)
  {
    DecimalValue(n);
  }

  /** The bytes of a decimal rendering (what `format!` gives a byte protocol). */
  function DecimalBytes(n: nat): (b: seq<byte>)
    ensures |b| >= 1
    ensures forall i :: 0 <= i < |b| ==> 48 <= b[i] <= 57
  {
    var s := Decimal(n);
    assert IsByteString(s);
    Ascii(s)
  }
}
