/** The control messages of the datagram transfer: `LEN:<n>`, `ACK`, `FIN`, and the
    decimal numbers inside `LEN:` (Python's `str(n)` and `int(s)`). */
module Codec {
  import opened ByteStrings
  import opened Wrappers

  const LenPrefix: Bytes := [76, 69, 78, 58]  // LEN:
  const Ack: Bytes := [65, 67, 75]  // ACK
  const Fin: Bytes := [70, 73, 78]  // FIN

  /** A `LEN:` message declaring -5 bytes. */
  const NegativeLen: Bytes := [76, 69, 78, 58, 45, 53]  // LEN:-5

  const Zero: byte := 48
  const Minus: byte := 45
  const Plus: byte := 43

  predicate IsDigit(b: byte) { Zero <= b <= Zero + 9 }

  predicate AllDigits(s: Bytes) { forall i :: 0 <= i < |s| ==> IsDigit(s[i]) }

  /** The value of a string of decimal digits, most significant first. */
  function DigitsValue(s: Bytes): (n: nat)
    requires AllDigits(s)
  {
    if s == [] then 0 else DigitsValue(s[..|s| - 1]) * 10 + (s[|s| - 1] - Zero) as int
  }

  /** `str(n)` for a byte count: its decimal digits, no sign, no leading zero. */
  function Decimal(n: nat): (s: Bytes)
    ensures |s| >= 1 && AllDigits(s)
    ensures |s| > 1 ==> s[0] != Zero
  {
    if n < 10 then [Zero + n as byte] else Decimal(n / 10) + [Zero + (n % 10) as byte]
  }

  /** `int(s)` on an optional sign followed by decimal digits; anything else is the
      `ValueError` the source catches. */
  function ParseInt(s: Bytes): Option<int>
  {
    if |s| >= 1 && (s[0] == Minus || s[0] == Plus) then
      if |s| >= 2 && AllDigits(s[1..]) then
        var v: int := DigitsValue(s[1..]);
        Some(if s[0] == Minus then -v else v)
      else None
    else if |s| >= 1 && AllDigits(s) then Some(DigitsValue(s))
    else None
  }

  /** What the sender puts in its first datagram: `'LEN:' + str(num_bytes)`. */
  function LenMessage(n: nat): Bytes
  {
    LenPrefix + Decimal(n)
  }

  /** Why a receiver refuses the first datagram of a transfer. */
  datatype LenError =
    | MissingPrefix   // does not start with `LEN:`
    | NotAnInteger    // the rest is not an integer
    | ZeroLength      // the declared length is 0

  predicate HasLenPrefix(p: Bytes) { |p| >= |LenPrefix| && p[..|LenPrefix|] == LenPrefix }

  /** The receiver's check of the `LEN:` datagram. Any integer but 0 is accepted,
      a negative one included. */
  function ParseLenMessage(p: Bytes): (r: Result<int, LenError>)
    ensures r == Err(MissingPrefix) <==> !HasLenPrefix(p)
    ensures r == Err(NotAnInteger) <==> HasLenPrefix(p) && ParseInt(p[4..]).None?
    ensures r == Err(ZeroLength) <==> HasLenPrefix(p) && ParseInt(p[4..]) == Some(0)
    ensures r.Ok? ==> r.value != 0 && HasLenPrefix(p) && ParseInt(p[4..]) == Some(r.value)
  {
    if !HasLenPrefix(p) then Err(MissingPrefix)
    else match ParseInt(p[4..])
      case None => Err(NotAnInteger)
      case Some(n) => if n == 0 then Err(ZeroLength) else Ok(n)
  }

  /** Reading back what `str` wrote gives the number. */
  lemma {:induction false} DecimalRoundTrip(n: nat)
    ensures DigitsValue(Decimal(n)) == n
  {
    if n >= 10 {
      DecimalRoundTrip(n / 10);
      var s := Decimal(n);
      assert s[..|s| - 1] == Decimal(n / 10);
    }
  }

  /** The receiver accepts exactly the length the sender declared, unless it is 0. */
  lemma LenRoundTrip(n: nat)
    ensures ParseLenMessage(LenMessage(n)) == if n == 0 then Err(ZeroLength) else Ok(n)
  {
    var m := LenMessage(n);
    assert m[..4] == LenPrefix;
    assert m[4..] == Decimal(n);
    DecimalRoundTrip(n);
    assert Decimal(n)[0] != Minus && Decimal(n)[0] != Plus;
  }

  /** A declared length of -5 passes the check. */
  lemma NegativeLengthAccepted()
    ensures ParseLenMessage(NegativeLen) == Ok(-5)
  {
    var p := NegativeLen;
    assert p[..4] == LenPrefix;
    assert p[4..] == [Minus, Zero + 5];
    assert [Minus, Zero + 5][1..] == [Zero + 5];
    assert [Zero + 5][..0] == [];
  }

  /** The control words are told apart from each other. */
  lemma ControlWordsDistinct()
    ensures Ack != Fin && |Ack| == 3 && |Fin| == 3
  {
    assert Ack[0] != Fin[0];
  }
}
