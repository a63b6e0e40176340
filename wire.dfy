/** The vocabulary both transfer variants share: bytes and datagrams, the
    text helpers the Kotlin code leans on (String.split, the fold-then-drop
    join, toInt/toLong, string templates of numbers), and the outcome of
    running one side of the protocol against a finite supply of input. */
module Wire {

  newtype byte = x: int | 0 <= x < 256

  datatype Option<T> = None | Some(value: T)

  /** The exception that ends a run in the source. */
  datatype Fault =
    | MissingField           // split(" ")[1] on a message without a space
    | NotANumber             // NumberFormatException from toInt / toLong
    | IndexOutOfRange        // list or array index outside its bounds
    | NegativeArraySize      // ByteArray(n) with n < 0
    | BadAck(reply: string)  // the UDP sender's "error while transferring the package"
    | NullLine               // readLine() returned null at the end of the stream
    | SocketClosed           // getInputStream() on a closed socket

  /** How a run over a finite input ends: with a value, waiting for input that
      has not arrived (the source blocks), or with an exception. */
  datatype Outcome<T> = Done(value: T) | Blocked | Thrown(fault: Fault)

  /** Re-types an outcome that carries no value. */
  function Propagate<T, U>(o: Outcome<T>): Outcome<U>
    requires !o.Done?
  {
    if o.Blocked? then Blocked else Thrown(o.fault)
  }

  /** What a UDP peer puts on the wire: a control message, or raw file bytes. */
  datatype Sent = Text(text: string) | Raw(bytes: seq<byte>)

  /** One UDP run: the datagrams it sent, how it ended, and the incoming
      datagrams it left unread. */
  datatype Step<T> = Step(sent: seq<Sent>, outcome: Outcome<T>, rest: seq<seq<byte>>)

  function Prepend<T>(sent: seq<Sent>, s: Step<T>): Step<T>
  {
    Step(sent + s.sent, s.outcome, s.rest)
  }

  /** What a receive loop leaves behind: the bytes it wrote to the file, how
      it ended, and the input it did not read. */
  datatype Reception = Reception(written: seq<byte>, outcome: Outcome<()>, rest: seq<seq<byte>>)

  /** A reception with `w` written before it. */
  function After(w: seq<byte>, r: Reception): Reception
  {
    Reception(w + r.written, r.outcome, r.rest)
  }

  /** One TCP exchange over text lines: the lines printed, how it ended, and
      the incoming lines left unread. */
  datatype Exchange<T> = Exchange(sent: seq<string>, outcome: Outcome<T>, rest: seq<string>)

  function Min(a: int, b: int): int { if a <= b then a else b }

  // ---------------------------------------------------------------------
  // Buffers

  function Zeros(n: nat): (z: seq<byte>)
    ensures |z| == n && forall i :: 0 <= i < n ==> z[i] == 0
  {
    seq(n, _ => 0)
  }

  /** The contents of a fresh `ByteArray(size)` after `receive` has stored the
      datagram `d` in it: the datagram's first bytes, zero-filled after. */
  function Fit(d: seq<byte>, size: nat): (b: seq<byte>)
    ensures |b| == size
    ensures forall i :: 0 <= i < size ==> b[i] == if i < |d| then d[i] else 0
  {
    if |d| >= size then d[..size] else d + Zeros(size - |d|)
  }

  /** The concatenation of a sequence of byte strings. */
  function Flatten(ss: seq<seq<byte>>): seq<byte>
  {
    if |ss| == 0 then [] else ss[0] + Flatten(ss[1..])
  }

  // ---------------------------------------------------------------------
  // Text: the protocol speaks ASCII, so a byte and a char are the same value.

  predicate IsAscii(s: string)
  {
    forall i :: 0 <= i < |s| ==> s[i] as int < 128
  }

  /** `toString(Charsets.UTF_8)` of ASCII bytes: one char per byte. */
  function Chars(bs: seq<byte>): (s: string)
    ensures |s| == |bs| && forall i :: 0 <= i < |bs| ==> s[i] as int == bs[i] as int
  {
    seq(|bs|, i requires 0 <= i < |bs| => bs[i] as int as char)
  }

  /** `toByteArray()`: for ASCII text, one byte per char. */
  function Bytes(s: string): (bs: seq<byte>)
    ensures |bs| == |s| && forall i :: 0 <= i < |s| ==> bs[i] as int == s[i] as int % 256
  {
    seq(|s|, i requires 0 <= i < |s| => (s[i] as int % 256) as byte)
  }

  lemma CharsOfBytes(s: string)
    requires IsAscii(s)
    ensures Chars(Bytes(s)) == s
  {
  }

  // ---------------------------------------------------------------------
  // String.split(sep) with a one-character separator: Kotlin keeps every
  // field, empty ones included, so there is always at least one.

  function Split(s: string, sep: char): (r: seq<string>)
    ensures |r| >= 1
    ensures forall i :: 0 <= i < |r| ==> sep !in r[i]
    decreases |s|
  {
    if |s| == 0 then [""]
    else
      var t := Split(s[1..], sep);
      if s[0] == sep then [""] + t else [[s[0]] + t[0]] + t[1..]
  }

  lemma {:induction false} SplitWithoutSeparator(s: string, sep: char)
    requires sep !in s
    ensures Split(s, sep) == [s]
    decreases |s|
  {
    if |s| > 0 {
      SplitWithoutSeparator(s[1..], sep);
      assert [s[0]] + s[1..] == s;
    }
  }

  /** Splitting at a separator splits the two sides independently. */
  lemma {:induction false} SplitAppend(s: string, t: string, sep: char)
    ensures Split(s + [sep] + t, sep) == Split(s, sep) + Split(t, sep)
    decreases |s|
  {
    var whole := s + [sep] + t;
    if |s| == 0 {
      assert whole[1..] == t;
    } else {
      assert whole[1..] == s[1..] + [sep] + t;
      SplitAppend(s[1..], t, sep);
    }
  }

  /** `xs.fold("") { x, y -> "$x;$y" }`: every element preceded by the separator. */
  function FoldJoin(xs: seq<string>, sep: char): string
  {
    if |xs| == 0 then "" else FoldJoin(xs[..|xs| - 1], sep) + [sep] + xs[|xs| - 1]
  }

  /** `String.drop(1)`. */
  function Drop1(s: string): string
  {
    if |s| == 0 then "" else s[1..]
  }

  /** The catalog join of the source: fold with a leading separator, then drop it. */
  function Join(xs: seq<string>, sep: char): string
  {
    Drop1(FoldJoin(xs, sep))
  }

  lemma {:induction false} SplitFoldJoin(xs: seq<string>, sep: char)
    requires forall i :: 0 <= i < |xs| ==> sep !in xs[i]
    ensures Split(FoldJoin(xs, sep), sep) == [""] + xs
    ensures |xs| > 0 ==> |FoldJoin(xs, sep)| > 0 && FoldJoin(xs, sep)[0] == sep
  {
    if |xs| > 0 {
      var init, last := xs[..|xs| - 1], xs[|xs| - 1];
      SplitFoldJoin(init, sep);
      SplitAppend(FoldJoin(init, sep), last, sep);
      SplitWithoutSeparator(last, sep);
      assert init + [last] == xs;
    }
  }

  /** Splitting the joined catalog on the separator gives back every field,
      provided there is at least one and none contains the separator. */
  lemma JoinSplit(xs: seq<string>, sep: char)
    requires |xs| > 0
    requires forall i :: 0 <= i < |xs| ==> sep !in xs[i]
    ensures Split(Join(xs, sep), sep) == xs
  {
    SplitFoldJoin(xs, sep);
    var folded := FoldJoin(xs, sep);
    assert folded == [sep] + Join(xs, sep);
    assert folded[1..] == Join(xs, sep);
    assert Split(folded, sep) == [""] + Split(Join(xs, sep), sep);
    assert ([""] + Split(Join(xs, sep), sep))[1..] == Split(Join(xs, sep), sep);
    assert ([""] + xs)[1..] == xs;
  }

  /** The last `/`-separated segment of a path (`f.name.split("/")` and its
      last element). */
  function LastPathSegment(path: string): (name: string)
    ensures '/' !in name
  {
    var segments := Split(path, '/');
    segments[|segments| - 1]
  }

  /** The last segment is the `/`-free end of the path: the whole path when
      it has no `/`, otherwise what follows its last `/`. */
  lemma LastPathSegmentIsSuffix(path: string)
    ensures var name := LastPathSegment(path);
      && |name| <= |path| && path[|path| - |name|..] == name
      && (|name| < |path| ==> path[|path| - |name| - 1] == '/')
  {
    var t := Split(path, '/');
    SplitLast(path, '/');
    assert LastPathSegment(path) == t[|t| - 1];
  }

  /** The last field of a split is the end of the text: all of it when there
      is no separator, otherwise what follows the last separator. */
  lemma {:induction false} SplitLast(s: string, sep: char)
    ensures var t := Split(s, sep); var last := t[|t| - 1];
      && |last| <= |s| && s[|s| - |last|..] == last
      && (|last| < |s| ==> s[|s| - |last| - 1] == sep)
      && (|t| == 1 ==> last == s)
      && (|t| > 1 ==> |last| < |s|)
    decreases |s|
  {
    if |s| > 0 {
      var u := Split(s[1..], sep);
      SplitLast(s[1..], sep);
      var lu := u[|u| - 1];
      var t := Split(s, sep);
      assert s[1..][|s| - 1 - |lu|..] == s[|s| - |lu|..];
      if s[0] == sep {
        assert t == [""] + u;
        assert t[|t| - 1] == lu;
        if |lu| < |s| - 1 {
          assert s[|s| - |lu| - 1] == s[1..][|s| - 1 - |lu| - 1];
        }
      } else if |u| > 1 {
        assert t == [[s[0]] + u[0]] + u[1..];
        assert t[|t| - 1] == lu;
        assert s[|s| - |lu| - 1] == s[1..][|s| - 1 - |lu| - 1];
      } else {
        assert lu == s[1..];
        assert t == [[s[0]] + s[1..]];
        assert [s[0]] + s[1..] == s;
      }
    }
  }

  // ---------------------------------------------------------------------
  // Numbers as text

  predicate IsDigit(c: char) { '0' <= c <= '9' }

  predicate AllDigits(s: string)
  {
    forall i :: 0 <= i < |s| ==> IsDigit(s[i])
  }

  /** The value of a string of decimal digits, most significant first. */
  function DigitsValue(s: string): nat
    requires AllDigits(s)
    decreases |s|
  {
    if |s| == 0 then 0 else DigitsValue(s[..|s| - 1]) * 10 + (s[|s| - 1] as int - '0' as int)
  }

  const IntMin: int := -0x8000_0000
  const IntMax: int := 0x7fff_ffff
  const LongMin: int := -0x8000_0000_0000_0000
  const LongMax: int := 0x7fff_ffff_ffff_ffff

  /** `Integer.parseInt` / `Long.parseLong` on ASCII text: an optional sign,
      at least one digit, and a value inside [lo, hi]; anything else is a
      NumberFormatException, here None. */
  function ParseInteger(s: string, lo: int, hi: int): (r: Option<int>)
    ensures r.Some? ==> lo <= r.value <= hi
    ensures r.Some? ==>
      var digits := if |s| > 0 && (s[0] == '-' || s[0] == '+') then s[1..] else s;
      |digits| > 0 && AllDigits(digits)
  {
    var signed := |s| > 0 && (s[0] == '-' || s[0] == '+');
    var digits := if signed then s[1..] else s;
    if |digits| == 0 || !AllDigits(digits) then None
    else
      var magnitude: int := DigitsValue(digits);
      var v := if |s| > 0 && s[0] == '-' then -magnitude else magnitude;
      if lo <= v <= hi then Some(v) else None
  }

  /** A number followed by a NUL character, as a field read from a
      zero-padded buffer is, never parses. */
  lemma PaddedNumberDoesNotParse(s: string, lo: int, hi: int)
    ensures ParseInteger(s + [0 as char], lo, hi) == None
  {
    var t := s + [0 as char];
    var digits := if t[0] == '-' || t[0] == '+' then t[1..] else t;
    if |digits| > 0 {
      assert digits[|digits| - 1] == 0 as char;
    }
  }

  /** Kotlin's `String.toInt()`. */
  function ToInt(s: string): (r: Option<int>)
    ensures r.Some? ==> IntMin <= r.value <= IntMax
  {
    ParseInteger(s, IntMin, IntMax)
  }

  /** Kotlin's `String.toLong()`. */
  function ToLong(s: string): (r: Option<int>)
    ensures r.Some? ==> LongMin <= r.value <= LongMax
  {
    ParseInteger(s, LongMin, LongMax)
  }

  /** `Long.toInt()`: keep the low 32 bits, as a two's-complement Int. */
  function ToInt32(x: int): (r: int)
    ensures IntMin <= r <= IntMax
    ensures IntMin <= x <= IntMax ==> r == x
  {
    if IntMin <= x <= IntMax then x else (x - IntMin) % 0x1_0000_0000 + IntMin
  }

  /** The narrowed value differs from the original by a multiple of 2^32. */
  lemma ToInt32Wraps(x: int)
    ensures (ToInt32(x) - x) % 0x1_0000_0000 == 0
  {
  }

  function DigitChar(d: int): (c: char)
    requires 0 <= d < 10
    ensures IsDigit(c) && c as int - '0' as int == d
  {
    ('0' as int + d) as char
  }

  function NatDecimal(n: nat): (s: string)
    ensures |s| > 0 && AllDigits(s)
    decreases n
  {
    if n < 10 then [DigitChar(n)] else NatDecimal(n / 10) + [DigitChar(n % 10)]
  }

  /** `"$n"` for an Int or a Long: optional minus sign, then the digits. */
  function Decimal(n: int): string
  {
    if n < 0 then "-" + NatDecimal(-n) else NatDecimal(n)
  }

  lemma {:induction false} NatDecimalValue(n: nat)
    ensures DigitsValue(NatDecimal(n)) == n
    decreases n
  {
    if n >= 10 {
      var s := NatDecimal(n);
      NatDecimalValue(n / 10);
      assert s[..|s| - 1] == NatDecimal(n / 10);
    }
  }

  /** Printing a number and parsing it back gives the number, as long as it fits. */
  lemma ParseDecimal(n: int, lo: int, hi: int)
    requires lo <= n <= hi
    ensures ParseInteger(Decimal(n), lo, hi) == Some(n)
  {
    var s := Decimal(n);
    if n < 0 {
      NatDecimalValue(-n);
      assert s[1..] == NatDecimal(-n);
    } else {
      NatDecimalValue(n);
    }
  }

  function Pow10(k: nat): nat
  {
    if k == 0 then 1 else 10 * Pow10(k - 1)
  }

  lemma {:induction false} NatDecimalLength(n: nat, k: nat)
    requires 0 < k && n < Pow10(k)
    ensures |NatDecimal(n)| <= k
    decreases k
  {
    if n >= 10 {
      assert k != 1 by { assert Pow10(1) == 10; }
      NatDecimalLength(n / 10, k - 1);
    }
  }

  lemma DecimalIsAscii(n: int)
    ensures IsAscii(Decimal(n))
    ensures ' ' !in Decimal(n) && ';' !in Decimal(n) && 0 as char !in Decimal(n)
  {
    var s := Decimal(n);
    var digits := NatDecimal(if n < 0 then -n else n);
    assert forall i :: 0 <= i < |digits| ==> '0' <= digits[i] <= '9';
  }
}
