/** The text file of the store: one line a record, written in any order and read back. */
module FileData {
  import opened Arithmetic
  import opened Evm
  import opened Protocol

  type text = seq<char>

  datatype Parsed<+T> = Fail | Value(value: T) {
    predicate IsFailure() { Fail? }

    function PropagateFailure<U>(): Parsed<U>
      requires Fail?
    {
      Fail
    }

    function Extract(): T
      requires Value?
    {
      value
    }
  }

  function Check(condition: bool): Parsed<()> {
    if condition then Value(()) else Fail
  }

  // ---- splitting ----

  /** `bytes.Split` by one character: the pieces between its occurrences, always at least one. */
  function Split(s: text, c: char): (pieces: seq<text>)
    ensures |pieces| >= 1
    decreases s
  {
    if s == [] then [[]] else
      var rest := Split(s[1..], c);
      if s[0] == c then [[]] + rest else [[s[0]] + rest[0]] + rest[1..]
  }

  predicate Free(s: text, c: char) {
    c !in s
  }

  lemma {:induction false} SplitFree(s: text, c: char)
    requires Free(s, c)
    ensures Split(s, c) == [s]
    decreases s
  {
    if s != [] {
      SplitFree(s[1..], c);
      assert s == [s[0]] + s[1..];
    }
  }

  /** A piece without the separator, then the separator, then the rest. */
  lemma {:induction false} SplitStep(a: text, b: text, c: char)
    requires Free(a, c)
    ensures Split(a + [c] + b, c) == [a] + Split(b, c)
    decreases a
  {
    if a == [] {
      assert (a + [c] + b)[1..] == b;
    } else {
      assert (a + [c] + b)[1..] == a[1..] + [c] + b;
      SplitStep(a[1..], b, c);
      assert a == [a[0]] + a[1..];
      assert Split(a[1..] + [c] + b, c)[1..] == Split(b, c);
    }
  }

  // ---- decimal numbers ----

  function Digit(d: nat): char
    requires d < 10
  {
    ['0', '1', '2', '3', '4', '5', '6', '7', '8', '9'][d]
  }

  function DigitValue(c: char): Parsed<nat> {
    if '0' <= c <= '9' then Value(c as int - '0' as int) else Fail
  }

  /** `%d` of a natural number. */
  function Dec(n: nat): (s: text)
    ensures |s| > 0
  {
    if n < 10 then [Digit(n)] else Dec(n / 10) + [Digit(n % 10)]
  }

  /** `%d` of an integer. */
  function DecInt(i: int): text {
    if i < 0 then ['-'] + Dec(-i) else Dec(i)
  }

  function ParseDigits(s: text): Parsed<nat>
    decreases s
  {
    if s == [] then Fail
    else if |s| == 1 then DigitValue(s[0])
    else
      var high :- ParseDigits(s[..|s| - 1]);
      var low :- DigitValue(s[|s| - 1]);
      Value(10 * high + low)
  }

  /** `SetString(s, 10)`: an optional sign and digits. */
  function ParseBig(s: text): Parsed<int> {
    if s != [] && s[0] == '-' then
      var n :- ParseDigits(s[1..]);
      var i: int := n;
      Value(-i)
    else if s != [] && s[0] == '+' then ParseDigits(s[1..])
    else ParseDigits(s)
  }

  const TWO_63: int := 0x8000_0000_0000_0000
  const TWO_64: int := 0x1_0000_0000_0000_0000

  /** `ParseUint(s, 10, 64)`. */
  function ParseUint64(s: text): Parsed<nat> {
    var n :- ParseDigits(s);
    var _ :- Check(n < TWO_64);
    Value(n)
  }

  /** `ParseInt(s, 10, 64)`. */
  function ParseInt64(s: text): Parsed<int> {
    var i :- ParseBig(s);
    var _ :- Check(-TWO_63 <= i < TWO_63);
    Value(i)
  }

  lemma DigitRoundTrip(d: nat)
    requires d < 10
    ensures DigitValue(Digit(d)) == Value(d) && '0' <= Digit(d) <= '9'
  {
  }

  lemma {:induction false} DigitsRoundTrip(n: nat)
    ensures ParseDigits(Dec(n)) == Value(n)
    ensures forall i :: 0 <= i < |Dec(n)| ==> '0' <= Dec(n)[i] <= '9'
    ensures Plain(Dec(n))
  {
    hide Digit, DigitValue;
    DigitRoundTrip(n % 10);
    if n >= 10 {
      DigitsRoundTrip(n / 10);
      assert Dec(n)[..|Dec(n)| - 1] == Dec(n / 10);
      assert 10 * (n / 10) + n % 10 == n;
    }
  }

  lemma IntRoundTrip(i: int)
    ensures ParseBig(DecInt(i)) == Value(i) && Plain(DecInt(i))
  {
    hide Dec, ParseDigits;
    DigitsRoundTrip(if i < 0 then -i else i);
    if i < 0 {
      assert DecInt(i)[1..] == Dec(-i);
    }
  }

  // ---- booleans ----

  function BoolText(b: bool): text {
    if b then "true" else "false"
  }

  /** `ParseBool`. */
  function ParseBool(s: text): Parsed<bool> {
    if s in ["1", "t", "T", "TRUE", "true", "True"] then Value(true)
    else if s in ["0", "f", "F", "FALSE", "false", "False"] then Value(false)
    else Fail
  }

  lemma BoolRoundTrip(b: bool)
    ensures ParseBool(BoolText(b)) == Value(b) && Plain(BoolText(b))
  {
    var yes, no := ["1", "t", "T", "TRUE", "true", "True"], ["0", "f", "F", "FALSE", "false", "False"];
    assert yes[4] == "true" && no[4] == "false";
    assert "false" !in yes by {
      assert |"false"| == 5;
    }
  }

  // ---- addresses ----

  /** Which hex letters of an address are upper case, by position; EIP-55 derives it from a hash. */
  type Casing = (Address, nat) -> bool

  function HexDigit(d: nat, upper: bool): char
    requires d < 16
  {
    if upper then
      ['0', '1', '2', '3', '4', '5', '6', '7', '8', '9', 'A', 'B', 'C', 'D', 'E', 'F'][d]
    else
      ['0', '1', '2', '3', '4', '5', '6', '7', '8', '9', 'a', 'b', 'c', 'd', 'e', 'f'][d]
  }

  function HexValue(c: char): Parsed<nat> {
    if '0' <= c <= '9' then Value(c as int - '0' as int)
    else if 'a' <= c <= 'f' then Value(10 + c as int - 'a' as int)
    else if 'A' <= c <= 'F' then Value(10 + c as int - 'A' as int)
    else Fail
  }

  /** The low `width` hex digits of `n`. */
  function HexDigits(n: nat, width: nat, upper: nat -> bool): (s: text)
    ensures |s| == width
    decreases width
  {
    if width == 0 then [] else HexDigits(n / 16, width - 1, upper) + [HexDigit(n % 16, upper(width - 1))]
  }

  /** An address as it is printed: `0x` and forty digits, in mixed case. */
  function AddressText(a: Address, casing: Casing): text {
    "0x" + HexDigits(a, 40, (i: nat) => casing(a, i))
  }

  /** `hex.DecodeString`, as a number: pairs of digits up to the first that is not a pair. */
  function DecodeHex(s: text, high: nat): nat
    decreases s
  {
    if |s| < 2 || HexValue(s[0]).Fail? || HexValue(s[1]).Fail? then high
    else DecodeHex(s[2..], high * 256 + HexValue(s[0]).value * 16 + HexValue(s[1]).value)
  }

  /** `HexToAddress`: an optional prefix, a leading zero for odd lengths, and the last 20 bytes. */
  function HexToAddress(s: text): Address {
    var digits := if |s| >= 2 && s[0] == '0' && (s[1] == 'x' || s[1] == 'X') then s[2..] else s;
    var even := if |digits| % 2 == 1 then "0" + digits else digits;
    DecodeHex(even, 0) % TWO_160
  }

  predicate AllHex(s: text) {
    forall i :: 0 <= i < |s| ==> HexValue(s[i]).Value?
  }

  lemma {:induction false} DecodeConcat(a: text, b: text, high: nat)
    requires |a| % 2 == 0 && AllHex(a)
    ensures DecodeHex(a + b, high) == DecodeHex(b, DecodeHex(a, high))
    decreases a
  {
    if a == [] {
      assert a + b == b;
    } else {
      assert (a + b)[2..] == a[2..] + b;
      assert (a + b)[0] == a[0] && (a + b)[1] == a[1];
      DecodeConcat(a[2..], b, high * 256 + HexValue(a[0]).value * 16 + HexValue(a[1]).value);
    }
  }

  lemma {:induction false} HexRoundTrip(n: nat, width: nat, upper: nat -> bool)
    requires n < Pow(256, width)
    ensures AllHex(HexDigits(n, 2 * width, upper))
    ensures DecodeHex(HexDigits(n, 2 * width, upper), 0) == n
    decreases width
  {
    hide HexDigit, HexValue;
    if width > 0 {
      var all := HexDigits(n, 2 * width, upper);
      var odd := HexDigits(n / 16, 2 * width - 1, upper);
      var init := HexDigits(n / 16 / 16, 2 * width - 2, upper);
      var high, low := HexDigit(n / 16 % 16, upper(2 * width - 2)), HexDigit(n % 16, upper(2 * width - 1));
      assert all == odd + [low] && odd == init + [high];
      assert all == init + [high, low];
      assert n / 16 / 16 == n / 256;
      DigitBound(n, 256, Pow(256, width - 1));
      HexRoundTrip(n / 256, width - 1, upper);
      DecodeConcat(init, [high, low], 0);
      HexDigitValue(n / 16 % 16, upper(2 * width - 2));
      HexDigitValue(n % 16, upper(2 * width - 1));
      LastPair(high, low, n / 256);
      assert n / 256 * 256 + n / 16 % 16 * 16 + n % 16 == n;
    }
  }

  lemma HexDigitValue(d: nat, upper: bool)
    requires d < 16
    ensures HexValue(HexDigit(d, upper)) == Value(d)
  {
  }

  lemma LastPair(high: char, low: char, before: nat)
    requires HexValue(high).Value? && HexValue(low).Value?
    ensures DecodeHex([high, low], before) == before * 256 + HexValue(high).value * 16 + HexValue(low).value
  {
    assert [high, low][2..] == [];
  }

  /** The characters that the format uses to separate. */
  predicate Separator(c: char) {
    c == ',' || c == '@' || c == '\n'
  }

  predicate Plain(s: text) {
    s != [] && forall i :: 0 <= i < |s| ==> !Separator(s[i])
  }

  lemma PlainIsFree(s: text, c: char)
    requires Plain(s) && Separator(c)
    ensures Free(s, c)
  {
  }

  /** An address survives printing and parsing, whatever the case of its letters. */
  lemma AddressRoundTrip(a: Address, casing: Casing)
    ensures HexToAddress(AddressText(a, casing)) == a
    ensures Plain(AddressText(a, casing))
  {
    hide Pow, DecodeHex, HexDigits;
    PowConstants();
    var upper := (i: nat) => casing(a, i);
    var digits, s := HexDigits(a, 40, upper), AddressText(a, casing);
    HexRoundTrip(a, 20, upper);
    assert s == "0x" + digits && s[2..] == digits;
    forall i | 0 <= i < |s|
      ensures !Separator(s[i])
    {
      if i >= 2 {
        assert HexValue(digits[i - 2]).Value?;
      }
    }
  }

  // ---- records ----

  function LogStateText(u: LogState): text {
    Dec(u.blockNumber) + [','] + (Dec(u.txIndex) + [','] + (Dec(u.logIndex) + [','] + DecInt(u.timestamp)))
  }

  function ParseLogState(s: text): Parsed<LogState> {
    var words := Split(s, ',');
    var _ :- Check(|words| == 4);
    var blockNumber :- ParseUint64(words[0]);
    var txIndex :- ParseUint64(words[1]);
    var logIndex :- ParseUint64(words[2]);
    var timestamp :- ParseInt64(words[3]);
    Value(LogState(blockNumber, txIndex, logIndex, timestamp))
  }

  function BodyText(p: PairRecord, casing: Casing): text {
    AddressText(p.address, casing) + [',']
    + (AddressText(p.token0, casing) + [',']
       + (AddressText(p.token1, casing) + [',']
          + (Dec(p.reserve0) + [','] + (Dec(p.reserve1) + [','] + (BoolText(p.error) + [','] + DecInt(p.fee))))))
  }

  /** `ToFileData` of a record. */
  function ToFileData(p: PairRecord, casing: Casing): text {
    BodyText(p, casing) + ['@'] + LogStateText(p.update)
  }

  /** A reserve must not be zero. */
  function ParseReserve(s: text): Parsed<nat> {
    var r :- ParseBig(s);
    var _ :- Check(r > 0);
    Value(r)
  }

  function ParseAddress(s: text): Parsed<Address> {
    var a := HexToAddress(s);
    var _ :- Check(a != 0);
    Value(a)
  }

  function ParseBody(s: text): Parsed<PairRecord> {
    var words := Split(s, ',');
    var _ :- Check(|words| == 7);
    var address :- ParseAddress(words[0]);
    var token0 :- ParseAddress(words[1]);
    var token1 :- ParseAddress(words[2]);
    var reserve0 :- ParseReserve(words[3]);
    var reserve1 :- ParseReserve(words[4]);
    var error :- ParseBool(words[5]);
    var fee :- ParseInt64(words[6]);
    Value(PairRecord(address, token0, token1, reserve0, reserve1, error, fee, LogState(0, 0, 0, 0)))
  }

  /** `FromFileData` of a record. */
  function FromFileData(s: text): Parsed<PairRecord> {
    var parts := Split(s, '@');
    var _ :- Check(|parts| == 2);
    var body :- ParseBody(parts[0]);
    var update :- ParseLogState(parts[1]);
    Value(body.(update := update))
  }

  /** What the writer is given: the integers fit their types, and nothing is zero that must not be. */
  ghost predicate Persistable(p: PairRecord) {
    && p.address != 0 && p.token0 != 0 && p.token1 != 0 && p.reserve0 != 0 && p.reserve1 != 0
    && -TWO_63 <= p.fee < TWO_63 && -TWO_63 <= p.update.timestamp < TWO_63
    && p.update.blockNumber < TWO_64 && p.update.txIndex < TWO_64 && p.update.logIndex < TWO_64
  }

  lemma LogStateRoundTrip(u: LogState)
    requires -TWO_63 <= u.timestamp < TWO_63
    requires u.blockNumber < TWO_64 && u.txIndex < TWO_64 && u.logIndex < TWO_64
    ensures ParseLogState(LogStateText(u)) == Value(u)
    ensures Free(LogStateText(u), '@') && Free(LogStateText(u), '\n')
  {
    hide Dec, DecInt, ParseDigits, ParseBig, Split, Plain, Free;
    var a, b, c, d := Dec(u.blockNumber), Dec(u.txIndex), Dec(u.logIndex), DecInt(u.timestamp);
    DigitsRoundTrip(u.blockNumber);
    DigitsRoundTrip(u.txIndex);
    DigitsRoundTrip(u.logIndex);
    IntRoundTrip(u.timestamp);
    SplitPlain(a, b + [','] + (c + [','] + d));
    SplitPlain(b, c + [','] + d);
    SplitPlain(c, d);
    SplitLast(d);
    JoinFree(c, d);
    JoinFree(b, c + [','] + d);
    JoinFree(a, b + [','] + (c + [','] + d));
  }

  lemma SplitPlain(a: text, b: text)
    requires Plain(a)
    ensures Split(a + [','] + b, ',') == [a] + Split(b, ',')
  {
    PlainIsFree(a, ',');
    SplitStep(a, b, ',');
  }

  lemma SplitLast(a: text)
    requires Plain(a)
    ensures Split(a, ',') == [a] && Free(a, '@') && Free(a, '\n')
  {
    PlainIsFree(a, ',');
    SplitFree(a, ',');
  }

  lemma JoinFree(a: text, b: text)
    requires Plain(a) && Free(b, '@') && Free(b, '\n')
    ensures Free(a + [','] + b, '@') && Free(a + [','] + b, '\n')
  {
  }

  lemma BodyRoundTrip(p: PairRecord, casing: Casing)
    requires Persistable(p)
    ensures Split(BodyText(p, casing), ',') ==
            [AddressText(p.address, casing), AddressText(p.token0, casing), AddressText(p.token1, casing),
             Dec(p.reserve0), Dec(p.reserve1), BoolText(p.error), DecInt(p.fee)]
    ensures ParseBody(BodyText(p, casing)) == Value(p.(update := LogState(0, 0, 0, 0)))
    ensures Free(BodyText(p, casing), '@') && Free(BodyText(p, casing), '\n')
  {
    hide Dec, DecInt, ParseDigits, ParseBig, Split, Plain, Free, AddressText, HexToAddress, BoolText, ParseBool;
    var a, b, c := AddressText(p.address, casing), AddressText(p.token0, casing), AddressText(p.token1, casing);
    var d, e, f, g := Dec(p.reserve0), Dec(p.reserve1), BoolText(p.error), DecInt(p.fee);
    AddressRoundTrip(p.address, casing);
    AddressRoundTrip(p.token0, casing);
    AddressRoundTrip(p.token1, casing);
    NatRoundTrip(p.reserve0);
    NatRoundTrip(p.reserve1);
    BoolRoundTrip(p.error);
    IntRoundTrip(p.fee);
    var s6 := f + [','] + g;
    var s5 := e + [','] + s6;
    var s4 := d + [','] + s5;
    var s3 := c + [','] + s4;
    var s2 := b + [','] + s3;
    SplitPlain(a, s2);
    SplitPlain(b, s3);
    SplitPlain(c, s4);
    SplitPlain(d, s5);
    SplitPlain(e, s6);
    SplitPlain(f, g);
    SplitLast(g);
    JoinFree(f, g);
    JoinFree(e, s6);
    JoinFree(d, s5);
    JoinFree(c, s4);
    JoinFree(b, s3);
    JoinFree(a, s2);
    assert BodyText(p, casing) == a + [','] + s2;
    assert Split(BodyText(p, casing), ',') == [a, b, c, d, e, f, g];
  }

  lemma NatRoundTrip(n: nat)
    ensures ParseBig(Dec(n)) == Value(n) && Plain(Dec(n))
  {
    IntRoundTrip(n);
  }

  /** Whatever line is accepted, its record is one that the writer could have written; lines with a zero
      address or reserve, or with a number that does not fit, are refused. */
  lemma AcceptedIsPersistable(s: text)
    requires FromFileData(s).Value?
    ensures Persistable(FromFileData(s).value)
  {
    hide Split, ParseDigits, HexToAddress, ParseBool, ParseBig;
    var parts := Split(s, '@');
    BodyAccepted(parts[0]);
    LogStateAccepted(parts[1]);
  }

  lemma BodyAccepted(s: text)
    requires ParseBody(s).Value?
    ensures var p := ParseBody(s).value;
      && p.address != 0 && p.token0 != 0 && p.token1 != 0 && p.reserve0 != 0 && p.reserve1 != 0
      && -TWO_63 <= p.fee < TWO_63
  {
    hide Split, ParseDigits, HexToAddress, ParseBool, ParseBig;
  }

  lemma LogStateAccepted(s: text)
    requires ParseLogState(s).Value?
    ensures var u := ParseLogState(s).value;
      && u.blockNumber < TWO_64 && u.txIndex < TWO_64 && u.logIndex < TWO_64
      && -TWO_63 <= u.timestamp < TWO_63
  {
    hide Split, ParseDigits, ParseBig;
  }

  /** Parsing undoes printing, in every persisted field. */
  lemma RecordRoundTrip(p: PairRecord, casing: Casing)
    requires Persistable(p)
    ensures FromFileData(ToFileData(p, casing)) == Value(p)
    ensures Free(ToFileData(p, casing), '\n') && ToFileData(p, casing) != []
  {
    hide BodyText, LogStateText, ParseBody, ParseLogState, Split;
    BodyRoundTrip(p, casing);
    LogStateRoundTrip(p.update);
    var body, update := BodyText(p, casing), LogStateText(p.update);
    SplitStep(body, update, '@');
    SplitFree(update, '@');
  }
}
