/** The packed route: written by the trader as hex text, read by the executor with overlapping
    32-byte loads. */
module RouteCodec {
  import opened Arithmetic
  import opened Evm
  import opened Protocol
  import opened Pricing
  import opened SwaperModel

  type byte = x: int | 0 <= x < 256
  type nibble = x: int | 0 <= x < 16

  // ---- numbers in base 16 and 256 ----

  /** The number that big-endian bytes stand for. */
  function Value(bytes: seq<byte>): nat
    decreases bytes
  {
    if bytes == [] then 0 else Value(bytes[..|bytes| - 1]) * 256 + bytes[|bytes| - 1]
  }

  /** The low `width` bytes of a number, big-endian. */
  function Bytes(n: nat, width: nat): (bytes: seq<byte>)
    ensures |bytes| == width
    decreases width
  {
    if width == 0 then [] else Bytes(n / 256, width - 1) + [n % 256]
  }

  lemma {:induction false} BytesValue(n: nat, width: nat)
    requires n < Pow(256, width)
    ensures Value(Bytes(n, width)) == n
    decreases width
  {
    if width > 0 {
      DigitBound(n, 256, Pow(256, width - 1));
      BytesValue(n / 256, width - 1);
      assert Bytes(n, width)[..width - 1] == Bytes(n / 256, width - 1);
    }
  }

  /** The value of a concatenation, modulo what its tail can hold, is the value of the tail. */
  lemma {:induction false} LowBytes(a: seq<byte>, b: seq<byte>)
    ensures Value(b) < Pow(256, |b|)
    ensures Value(a + b) % Pow(256, |b|) == Value(b)
    decreases b
  {
    ConcatValue(a, b);
    ModUnique(Value(a + b), Value(a), Value(b), Pow(256, |b|));
  }

  lemma {:induction false} ConcatValue(a: seq<byte>, b: seq<byte>)
    ensures Value(b) < Pow(256, |b|)
    ensures Value(a + b) == Pow(256, |b|) * Value(a) + Value(b)
    decreases b
  {
    if b == [] {
      assert a + b == a;
    } else {
      var init, last := b[..|b| - 1], b[|b| - 1];
      ConcatValue(a, init);
      assert (a + b)[..|a + b| - 1] == a + init;
      ShiftByte(Pow(256, |b| - 1), Value(a), Value(init), last);
    }
  }

  lemma ShiftByte(p: nat, high: nat, low: nat, last: byte)
    requires low < p
    ensures low * 256 + last < 256 * p
    ensures (p * high + low) * 256 + last == 256 * p * high + (low * 256 + last)
  {
  }

  // ---- the writer ----

  /** `%0<width>x`: at least `width` hex digits. */
  function HexFixed(n: nat, width: nat): (digits: seq<nibble>)
    ensures |digits| == width
    decreases width
  {
    if width == 0 then [] else HexFixed(n / 16, width - 1) + [n % 16]
  }

  function DigitCount(n: nat): nat {
    if n < 16 then 1 else 1 + DigitCount(n / 16)
  }

  function HexPadded(n: nat, width: nat): seq<nibble> {
    HexFixed(n, if DigitCount(n) < width then width else DigitCount(n))
  }

  /** `common.FromHex`: two digits a byte, with a leading zero if their number is odd. */
  function FromHex(digits: seq<nibble>): seq<byte> {
    if |digits| % 2 == 1 then PairUp([0] + digits) else PairUp(digits)
  }

  function PairUp(digits: seq<nibble>): (bytes: seq<byte>)
    ensures |bytes| == |digits| / 2
    decreases digits
  {
    if |digits| < 2 then [] else
      var high: int, low: int := digits[|digits| - 2], digits[|digits| - 1];
      PairUp(digits[..|digits| - 2]) + [16 * high + low]
  }

  /** The hops that a path of records stands for when WETH goes in first. */
  function RoutesOf(inAddr: Address, path: seq<PairRecord>): seq<Route>
    requires forall i :: 0 <= i < |path| ==> 0 <= path[i].fee
    decreases path
  {
    if path == [] then [] else
      var p := path[0];
      [Route(p.address, p.token0 == inAddr, p.fee)]
      + RoutesOf(if p.token0 == inAddr then p.token1 else p.token0, path[1..])
  }

  /** The text of one hop. */
  function HopText(route: Route): seq<nibble> {
    HexPadded(route.pair, 40) + HexPadded(if route.direction then 1 else 0, 2) + HexPadded(route.fee, 4)
  }

  function RouteText(routes: seq<Route>): seq<nibble>
    decreases routes
  {
    if routes == [] then [] else RouteText(routes[..|routes| - 1]) + HopText(routes[|routes| - 1])
  }

  lemma TextGrows(done: seq<Route>, hop: Route)
    ensures RouteText(done + [hop]) == RouteText(done) + HopText(hop)
  {
    hide HopText;
    assert (done + [hop])[..|done|] == done;
  }

  /** One turn of the packing loop. */
  lemma PackTurn(done: seq<Route>, inAddr: Address, rest: seq<PairRecord>)
    requires rest != [] && forall i :: 0 <= i < |rest| ==> 0 <= rest[i].fee
    ensures var pair := rest[0];
      var hop := Route(pair.address, pair.token0 == inAddr, pair.fee);
      && done + RoutesOf(inAddr, rest)
         == done + [hop] + RoutesOf(if pair.token0 == inAddr then pair.token1 else pair.token0, rest[1..])
      && RouteText(done + [hop]) == RouteText(done) + HopText(hop)
  {
    hide HopText, RouteText;
    var pair := rest[0];
    var hop := Route(pair.address, pair.token0 == inAddr, pair.fee);
    TextGrows(done, hop);
    var later := RoutesOf(if pair.token0 == inAddr then pair.token1 else pair.token0, rest[1..]);
    assert done + ([hop] + later) == done + [hop] + later;
  }

  /** The loop of `SwapV2` that builds the parameter text. */
  method PackParams(weth: Address, amount: nat, path: seq<PairRecord>) returns (params: seq<byte>)
    requires forall i :: 0 <= i < |path| ==> 0 <= path[i].fee
    ensures params == FromHex(HexPadded(amount, 20) + RouteText(RoutesOf(weth, path)))
  {
    hide HexPadded, RoutesOf, FromHex;
    var inAddr := weth;
    var paramStr := HexPadded(amount, 20);
    var i := 0;
    ghost var done: seq<Route> := [];
    assert path[0..] == path && RouteText([]) == [];
    while i < |path|
      invariant 0 <= i <= |path|
      invariant RoutesOf(weth, path) == done + RoutesOf(inAddr, path[i..])
      invariant paramStr == HexPadded(amount, 20) + RouteText(done)
    {
      var pair := path[i];
      PackTurn(done, inAddr, path[i..]);
      ghost var hop := Route(pair.address, pair.token0 == inAddr, pair.fee);
      assert path[i..][1..] == path[i + 1..];
      var boolToInt := 0;
      if pair.token0 == inAddr {
        boolToInt := 1;
        inAddr := pair.token1;
      } else {
        inAddr := pair.token0;
      }
      paramStr := paramStr + (HexPadded(pair.address, 40) + HexPadded(boolToInt, 2) + HexPadded(pair.fee, 4));
      done := done + [hop];
      i := i + 1;
    }
    NoMoreRoutes(inAddr, path[i..]);
    assert done + [] == done;
    return FromHex(paramStr);
  }

  lemma NoMoreRoutes(inAddr: Address, path: seq<PairRecord>)
    requires path == []
    ensures RoutesOf(inAddr, path) == []
  {
  }

  // ---- the reader ----

  function Zeros(n: nat): (zeros: seq<byte>)
    ensures |zeros| == n
  {
    if n == 0 then [] else [0] + Zeros(n - 1)
  }

  /** The 32 bytes from `p` on; memory is zero where nothing was written. */
  function Word(mem: seq<byte>, p: nat): (word: seq<byte>)
    ensures |word| == 32
  {
    (mem + Zeros(p + 32))[p..p + 32]
  }

  /** `mload(p)`. */
  function Load(mem: seq<byte>, p: nat): nat {
    Value(Word(mem, p))
  }

  /** A `bytes memory` value: its length, its data, and whatever lies behind. */
  function Memory(data: seq<byte>, behind: seq<byte>): seq<byte> {
    Bytes(|data|, 32) + data + behind
  }

  function RouteCount(mem: seq<byte>): nat {
    (Load(mem, 0) - 10) % TWO_256 / 23 % 256
  }

  /** Three overlapping loads, each cut to the size of the variable it goes to. */
  function RouteAt(mem: seq<byte>, i: nat): Route {
    var pointer := 30 + i * 23;
    Route(Load(mem, pointer) % TWO_160, Load(mem, pointer + 1) % 256 != 0, Load(mem, pointer + 3) % 0x1_0000)
  }

  function AmountSent(mem: seq<byte>): nat {
    Load(mem, 10) % 0x1_0000_0000_0000_0000_0000
  }

  /** The decoding loop of the executor's `swap`. */
  method Decode(mem: seq<byte>) returns (amountIn: nat, routes: seq<Route>)
    ensures amountIn == AmountSent(mem)
    ensures |routes| == RouteCount(mem)
    ensures forall i :: 0 <= i < |routes| ==> routes[i] == RouteAt(mem, i)
  {
    hide Load;
    var length := (Load(mem, 0) - 10) % TWO_256 / 23 % 256;
    amountIn := Load(mem, 10) % 0x1_0000_0000_0000_0000_0000;
    var filled := new Route[length](_ => Route(0, false, 0));
    var i := 0;
    while i < length
      invariant 0 <= i <= length
      invariant forall j :: 0 <= j < i ==> filled[j] == RouteAt(mem, j)
    {
      var pointer := 30 + i * 23;
      var pair := Load(mem, pointer) % TWO_160;
      pointer := pointer + 1;
      var direction := Load(mem, pointer) % 256;
      pointer := pointer + 2;
      var fee := Load(mem, pointer) % 0x1_0000;
      filled[i] := Route(pair, direction != 0, fee);
      i := i + 1;
    }
    routes := filled[..];
  }

  // ---- the round trip ----

  predicate Packable(routes: seq<Route>) {
    forall i :: 0 <= i < |routes| ==> routes[i].fee < 0x1_0000
  }

  /** The bytes of one hop: 20 of the pair, one of the direction, two of the fee. */
  function HopBytes(route: Route): (bytes: seq<byte>)
    ensures |bytes| == 23
  {
    Bytes(route.pair, 20) + Bytes(if route.direction then 1 else 0, 1) + Bytes(route.fee, 2)
  }

  function RouteBytes(routes: seq<Route>): (bytes: seq<byte>)
    ensures |bytes| == 23 * |routes|
    decreases routes
  {
    if routes == [] then [] else RouteBytes(routes[..|routes| - 1]) + HopBytes(routes[|routes| - 1])
  }

  lemma {:induction false} DigitCountFits(n: nat, width: nat)
    requires width > 0 && n < Pow(16, width)
    ensures DigitCount(n) <= width
    decreases width
  {
    if n >= 16 {
      assert width > 1;
      DigitBound(n, 16, Pow(16, width - 1));
      DigitCountFits(n / 16, width - 1);
    }
  }

  lemma {:induction false} HexPow(width: nat)
    ensures Pow(16, 2 * width) == Pow(256, width)
  {
    if width > 0 {
      HexPow(width - 1);
      assert Pow(16, 2 * width) == 16 * (16 * Pow(16, 2 * (width - 1)));
    }
  }

  /** Fixed-width hex text pairs up to fixed-width bytes. */
  lemma {:induction false} HexIsBytes(n: nat, width: nat)
    ensures PairUp(HexFixed(n, 2 * width)) == Bytes(n, width)
    decreases width
  {
    if width > 0 {
      var digits := HexFixed(n, 2 * width);
      assert digits == HexFixed(n / 16, 2 * width - 1) + [n % 16];
      assert HexFixed(n / 16, 2 * width - 1) == HexFixed(n / 16 / 16, 2 * width - 2) + [n / 16 % 16];
      assert digits[..2 * width - 2] == HexFixed(n / 16 / 16, 2 * width - 2);
      assert n / 16 / 16 == n / 256 && 16 * (n / 16 % 16) + n % 16 == n % 256;
      HexIsBytes(n / 256, width - 1);
    }
  }

  lemma PaddedIsBytes(n: nat, width: nat)
    requires width > 0 && n < Pow(256, width)
    ensures |HexPadded(n, 2 * width)| == 2 * width
    ensures PairUp(HexPadded(n, 2 * width)) == Bytes(n, width)
  {
    HexPow(width);
    DigitCountFits(n, 2 * width);
    HexIsBytes(n, width);
  }

  lemma {:induction false} PairUpConcat(a: seq<nibble>, b: seq<nibble>)
    requires |b| % 2 == 0
    ensures PairUp(a + b) == PairUp(a) + PairUp(b)
    decreases b
  {
    if b == [] {
      assert a + b == a;
    } else {
      PairUpConcat(a, b[..|b| - 2]);
      var all := a + b;
      assert all[..|all| - 2] == a + b[..|b| - 2];
      assert all[|all| - 2] == b[|b| - 2] && all[|all| - 1] == b[|b| - 1];
    }
  }

  lemma HopTextIsBytes(route: Route)
    requires route.fee < 0x1_0000
    ensures |HopText(route)| == 46 && PairUp(HopText(route)) == HopBytes(route)
  {
    hide HexPadded, Pow, Bytes, PairUp;
    PowConstants();
    var flag := if route.direction then 1 else 0;
    PaddedIsBytes(route.pair, 20);
    PaddedIsBytes(flag, 1);
    PaddedIsBytes(route.fee, 2);
    PairUpConcat(HexPadded(route.pair, 40) + HexPadded(flag, 2), HexPadded(route.fee, 4));
    PairUpConcat(HexPadded(route.pair, 40), HexPadded(flag, 2));
  }

  lemma {:induction false} RouteTextIsBytes(routes: seq<Route>)
    requires Packable(routes)
    ensures |RouteText(routes)| == 46 * |routes| && PairUp(RouteText(routes)) == RouteBytes(routes)
    decreases routes
  {
    hide HopText, HopBytes;
    if routes != [] {
      var init, last := routes[..|routes| - 1], routes[|routes| - 1];
      RouteTextIsBytes(init);
      HopTextIsBytes(last);
      PairUpConcat(RouteText(init), HopText(last));
    }
  }

  /** What is sent: ten bytes of the amount and 23 bytes a hop. */
  lemma EncodedLayout(amount: nat, routes: seq<Route>)
    requires amount < Pow(256, 10) && Packable(routes)
    ensures FromHex(HexPadded(amount, 20) + RouteText(routes)) == Bytes(amount, 10) + RouteBytes(routes)
  {
    hide HexPadded, Bytes, PairUp, RouteText, RouteBytes;
    PaddedIsBytes(amount, 10);
    RouteTextIsBytes(routes);
    PairUpConcat(HexPadded(amount, 20), RouteText(routes));
  }

  lemma WordInside(mem: seq<byte>, p: nat)
    requires p + 32 <= |mem|
    ensures Word(mem, p) == mem[p..p + 32]
  {
    var padded := mem + Zeros(p + 32);
    assert padded[..|mem|] == mem;
    assert forall k :: p <= k < p + 32 ==> padded[k] == mem[k];
  }

  /** The low bytes of a load are the last bytes of its window. */
  lemma LoadLow(mem: seq<byte>, p: nat, b: seq<byte>)
    requires p + 32 <= |mem| && |b| <= 32 && mem[p + 32 - |b|..p + 32] == b
    ensures Load(mem, p) % Pow(256, |b|) == Value(b)
  {
    hide Pow, Value, Word;
    WordInside(mem, p);
    var cut := p + 32 - |b|;
    assert mem[p..p + 32] == mem[p..cut] + mem[cut..p + 32];
    LowBytes(mem[p..cut], b);
  }

  lemma {:induction false} RouteBytesAt(routes: seq<Route>, i: nat)
    requires i < |routes|
    ensures RouteBytes(routes)[23 * i..23 * i + 23] == HopBytes(routes[i])
    decreases routes
  {
    hide HopBytes;
    var init := routes[..|routes| - 1];
    if i < |routes| - 1 {
      RouteBytesAt(init, i);
      assert RouteBytes(routes)[23 * i..23 * i + 23] == RouteBytes(init)[23 * i..23 * i + 23];
    }
  }

  /** The bytes of hop `i` lie 42 + 23 * i into memory. */
  lemma HopInMemory(amount: nat, routes: seq<Route>, behind: seq<byte>, i: nat)
    requires i < |routes|
    ensures var data := Bytes(amount, 10) + RouteBytes(routes);
      var at := 42 + 23 * i;
      && at + 23 <= |Memory(data, behind)|
      && Memory(data, behind)[at..at + 23] == HopBytes(routes[i])
  {
    hide HopBytes, Bytes;
    var data := Bytes(amount, 10) + RouteBytes(routes);
    RouteBytesAt(routes, i);
    var mem, at := Memory(data, behind), 42 + 23 * i;
    assert mem[at..at + 23] == data[10 + 23 * i..33 + 23 * i] == RouteBytes(routes)[23 * i..23 * i + 23];
  }

  lemma SplitHop(route: Route, flag: nat)
    requires flag == if route.direction then 1 else 0
    ensures var hop := HopBytes(route);
      hop[..20] == Bytes(route.pair, 20) && hop[20..21] == Bytes(flag, 1) && hop[21..23] == Bytes(route.fee, 2)
  {
    hide Bytes;
    var pair, direction, fee := Bytes(route.pair, 20), Bytes(flag, 1), Bytes(route.fee, 2);
    assert HopBytes(route) == pair + direction + fee;
    assert (pair + direction + fee)[20..21] == direction;
  }

  lemma SliceOfSlice(mem: seq<byte>, at: nat, i: nat, j: nat)
    requires at + 23 <= |mem| && i <= j <= 23
    ensures mem[at..at + 23][i..j] == mem[at + i..at + j]
  {
    var hop := mem[at..at + 23];
    forall k | 0 <= k < j - i
      ensures hop[i..j][k] == mem[at + i..at + j][k]
    {
      assert hop[i + k] == mem[at + i + k];
    }
  }

  lemma HopFields(mem: seq<byte>, at: nat, route: Route)
    requires 12 <= at && at + 23 <= |mem| && mem[at..at + 23] == HopBytes(route) && route.fee < 0x1_0000
    ensures Load(mem, at - 12) % TWO_160 == route.pair
    ensures Load(mem, at - 11) % 256 == if route.direction then 1 else 0
    ensures Load(mem, at - 9) % 0x1_0000 == route.fee
  {
    hide Load, Pow, Value, Bytes;
    PowConstants();
    var flag := if route.direction then 1 else 0;
    SplitHop(route, flag);
    SliceOfSlice(mem, at, 0, 20);
    SliceOfSlice(mem, at, 20, 21);
    SliceOfSlice(mem, at, 21, 23);
    LoadLow(mem, at - 12, Bytes(route.pair, 20));
    LoadLow(mem, at - 11, Bytes(flag, 1));
    LoadLow(mem, at - 9, Bytes(route.fee, 2));
    BytesValue(route.pair, 20);
    BytesValue(flag, 1);
    BytesValue(route.fee, 2);
  }

  lemma HopDecodes(amount: nat, routes: seq<Route>, behind: seq<byte>, i: nat)
    requires Packable(routes) && i < |routes|
    ensures RouteAt(Memory(Bytes(amount, 10) + RouteBytes(routes), behind), i) == routes[i]
  {
    hide Load, Memory, RouteBytes, Bytes, HopBytes;
    HopInMemory(amount, routes, behind, i);
    HopFields(Memory(Bytes(amount, 10) + RouteBytes(routes), behind), 42 + 23 * i, routes[i]);
  }

  lemma AmountDecodes(amount: nat, rest: seq<byte>, behind: seq<byte>)
    requires amount < Pow(256, 10)
    ensures AmountSent(Memory(Bytes(amount, 10) + rest, behind)) == amount
  {
    hide Load, Pow, Value, Bytes;
    PowConstants();
    var mem := Memory(Bytes(amount, 10) + rest, behind);
    assert mem[32..42] == Bytes(amount, 10);
    LoadLow(mem, 10, Bytes(amount, 10));
    BytesValue(amount, 10);
  }

  lemma LengthDecodes(data: seq<byte>, behind: seq<byte>)
    requires |data| < TWO_256
    ensures Load(Memory(data, behind), 0) == |data|
  {
    hide Load, Pow, Value, Bytes;
    PowConstants();
    var mem := Memory(data, behind);
    assert mem[0..32] == Bytes(|data|, 32);
    LoadLow(mem, 0, Bytes(|data|, 32));
    BytesValue(|data|, 32);
    LoadBound(mem, 0);
  }

  lemma HeaderDecodes(amount: nat, routes: seq<Route>, behind: seq<byte>)
    requires amount < Pow(256, 10) && 10 + 23 * |routes| < TWO_256
    ensures var mem := Memory(Bytes(amount, 10) + RouteBytes(routes), behind);
      AmountSent(mem) == amount && RouteCount(mem) == |routes| % 256
  {
    hide Load, RouteBytes, Pow, Bytes, Memory, AmountSent;
    AmountDecodes(amount, RouteBytes(routes), behind);
    LengthDecodes(Bytes(amount, 10) + RouteBytes(routes), behind);
    ModUnique(23 * |routes|, 0, 23 * |routes|, TWO_256);
    assert 23 * |routes| / 23 == |routes|;
  }

  lemma LoadBound(mem: seq<byte>, p: nat)
    ensures Load(mem, p) % TWO_256 == Load(mem, p)
  {
    PowConstants();
    LowBytes([], Word(mem, p));
    assert [] + Word(mem, p) == Word(mem, p);
  }

  /** The executor decodes what the trader packed: the amount, and all hops if there are at most 255
      of them. In general it stops after the first `n % 256` of `n` hops, because it keeps the count in
      one byte. What lies behind the parameters in memory does not matter. */
  lemma DecodeUndoesEncode(amount: nat, routes: seq<Route>, behind: seq<byte>)
    requires amount < 0x8000_0000_0000_0000 && Packable(routes) && 10 + 23 * |routes| < TWO_256
    ensures var mem := Memory(FromHex(HexPadded(amount, 20) + RouteText(routes)), behind);
      && AmountSent(mem) == amount
      && RouteCount(mem) == |routes| % 256
      && (forall i :: 0 <= i < |routes| ==> RouteAt(mem, i) == routes[i])
  {
    hide *;
    PowConstants();
    EncodedLayout(amount, routes);
    HeaderDecodes(amount, routes, behind);
    forall i: nat | i < |routes|
      ensures RouteAt(Memory(Bytes(amount, 10) + RouteBytes(routes), behind), i) == routes[i]
    {
      HopDecodes(amount, routes, behind, i);
    }
  }

  // ---- the directions ----

  /** On a chaining path the directions that are packed are those in which each pair takes the token
      the one before paid, and they lead to the same end. */
  lemma {:induction false} DirectionsChain(from: Address, path: seq<PairRecord>, to: Address, i: nat)
    requires Chains(from, path, to)
    requires forall k :: 0 <= k < |path| ==> 0 <= path[k].fee && path[k].token0 != path[k].token1
    requires i < |path|
    ensures |RoutesOf(from, path)| == |path|
    ensures var routes := RoutesOf(from, path);
      && routes[i].pair == path[i].address && routes[i].fee == path[i].fee
      && (i == 0 ==> (if routes[0].direction then path[0].token0 else path[0].token1) == from)
      && (i + 1 < |path| ==>
            (if routes[i].direction then path[i].token1 else path[i].token0)
            == (if routes[i + 1].direction then path[i + 1].token0 else path[i + 1].token1))
      && (i + 1 == |path| ==> (if routes[i].direction then path[i].token1 else path[i].token0) == to)
    decreases path
  {
    var next, rest := Exit(path[0], from), path[1..];
    if i > 0 {
      DirectionsChain(next, rest, to, i - 1);
    } else if rest != [] {
      DirectionsChain(next, rest, to, 0);
    }
  }
}
