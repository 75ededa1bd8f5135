/** "USB bootloader for LPCmini/usb/usbcore.c": the walk over the configuration
    descriptors and the endpoint mask and halt state (section 9.4 of USB 2.0). The
    32-bit masks are sets of bit numbers: OUT endpoint n is bit n, IN endpoint n is
    bit 16 + n. */
module UsbCore {
  import opened Bytes

  const CONFIGURATION: byte := 2
  const INTERFACE: byte := 4
  const ENDPOINT: byte := 5

  // ---- Descriptors and their bytes

  /** A descriptor inside a configuration. `rest` is what the walk does not look at. */
  datatype Item =
    | Interface(number: byte, alt: byte, rest: seq<byte>)
    | Endpoint(address: byte, rest: seq<byte>)
    | Other(kind: byte, rest: seq<byte>)

  predicate WellFormed(i: Item) {
    match i
    case Interface(_, _, rest) => |rest| + 4 < 0x100
    case Endpoint(a, rest) => |rest| + 3 < 0x100 && a % 0x10 != 0
    case Other(k, rest) => |rest| + 2 < 0x100 && k != CONFIGURATION && k != INTERFACE && k != ENDPOINT
  }

  type item = i: Item | WellFormed(i) witness Interface(0, 0, [])

  function ItemBytes(i: item): seq<byte> {
    match i
    case Interface(n, a, rest) => [|rest| + 4, INTERFACE, n, a] + rest
    case Endpoint(a, rest) => [|rest| + 3, ENDPOINT, a] + rest
    case Other(k, rest) => [|rest| + 2, k] + rest
  }

  function ItemsBytes(items: seq<item>): seq<byte> {
    if items == [] then [] else ItemBytes(items[0]) + ItemsBytes(items[1..])
  }

  /** Endpoints belong to an interface. */
  predicate Owned(items: seq<item>) {
    items == [] || items[0].Interface? || (items[0].Other? && Owned(items[1..]))
  }

  datatype Config = Config(value: byte, interfaces: byte, attributes: byte, index: byte, power: byte,
      items: seq<item>)

  predicate WellFormedConfig(c: Config) {
    c.value != 0 && 9 + |ItemsBytes(c.items)| < 0x1_0000 && Owned(c.items)
  }

  type config = c: Config | WellFormedConfig(c) witness Config(1, 0, 0, 0, 0, [])

  /** The standard nine bytes, with `wTotalLength`, then the items. */
  function HeadBytes(c: config): (r: seq<byte>)
    ensures |r| == 9
  {
    var total := 9 + |ItemsBytes(c.items)|;
    [9, CONFIGURATION, total % 0x100, total / 0x100, c.interfaces, c.value, c.index, c.attributes, c.power]
  }

  function ConfigsBytes(cs: seq<config>): seq<byte> {
    if cs == [] then [] else HeadBytes(cs[0]) + ItemsBytes(cs[0].items) + ConfigsBytes(cs[1..])
  }

  /** The block `USB_ConfigDescriptor`: all configurations and a zero length. */
  function Block(cs: seq<config>): seq<byte> {
    ConfigsBytes(cs) + [0]
  }

  predicate Distinct(cs: seq<config>) {
    forall i, j | 0 <= i < j < |cs| :: cs[i].value != cs[j].value
  }

  predicate Has(cs: seq<config>, v: byte) {
    exists i | 0 <= i < |cs| :: cs[i].value == v
  }

  // ---- Endpoint bits

  /** `(n & 0x80) ? ((1 << 16) << (n & 0x0F)) : (1 << n)` with n masked by 0x8F. */
  function Bit(address: byte): (b: nat)
    ensures b < 32
  {
    address % 0x10 + if address >= 0x80 then 16 else 0
  }

  const CONTROL: set<nat> := {0, 16}

  /** The endpoints that alternate setting 0 of the interfaces in `items` uses. */
  function Alt0(items: seq<item>, alt: byte): set<nat> {
    if items == [] then {}
    else
      match items[0]
      case Interface(_, a, _) => Alt0(items[1..], a)
      case Endpoint(a, _) => (if alt == 0 then {Bit(a)} else {}) + Alt0(items[1..], alt)
      case Other(_, _) => Alt0(items[1..], alt)
  }

  lemma {:induction false} Alt0Owned(items: seq<item>, x: byte, y: byte)
    requires Owned(items)
    ensures Alt0(items, x) == Alt0(items, y)
  {
    if items != [] && items[0].Other? {
      Alt0Owned(items[1..], x, y);
    }
  }

  lemma {:induction false} Alt0Data(items: seq<item>, alt: byte)
    ensures Alt0(items, alt) !! CONTROL
  {
    if items != [] {
      Alt0Data(items[1..], if items[0].Interface? then items[0].alt else alt);
    }
  }

  // ---- Where the walk stands

  /** The descriptor pointer `p` is at `items`, then the configurations `rest`. */
  predicate At(desc: seq<byte>, p: nat, items: seq<item>, rest: seq<config>) {
    p <= |desc| && desc[p..] == ItemsBytes(items) + Block(rest)
  }

  lemma AtItem(desc: seq<byte>, p: nat, items: seq<item>, rest: seq<config>)
    requires At(desc, p, items, rest) && items != []
    ensures var b := ItemBytes(items[0]);
            && p + |b| < |desc| && At(desc, p + |b|, items[1..], rest)
            && forall i | 0 <= i < |b| :: desc[p + i] == b[i]
  {
    FirstItem(items);
    SplitOff(desc, p, ItemBytes(items[0]), ItemsBytes(items[1..]), Block(rest));
  }

  lemma FirstItem(items: seq<item>)
    requires items != []
    ensures ItemsBytes(items) == ItemBytes(items[0]) + ItemsBytes(items[1..])
  {
  }

  lemma SplitOff(desc: seq<byte>, p: nat, b: seq<byte>, t: seq<byte>, k: seq<byte>)
    requires p <= |desc| && desc[p..] == b + t + k && |k| > 0
    ensures p + |b| < |desc| && desc[p + |b|..] == t + k
    ensures forall i | 0 <= i < |b| :: desc[p + i] == b[i]
  {
    Regroup(b, t, k);
    SplitAt(desc, p, b, t + k);
  }

  lemma AtConfig(desc: seq<byte>, p: nat, rest: seq<config>)
    requires At(desc, p, [], rest) && rest != []
    ensures var b, n := HeadBytes(rest[0]), 9 + |ItemsBytes(rest[0].items)|;
            && p + n < |desc| && At(desc, p + 9, rest[0].items, rest[1..]) && At(desc, p + n, [], rest[1..])
            && forall i | 0 <= i < 9 :: desc[p + i] == b[i]
  {
    var c := rest[0];
    var b, body, more := HeadBytes(c), ItemsBytes(c.items), ConfigsBytes(rest[1..]);
    BlockSplit(b, body, more);
    SplitAt(desc, p, b, body + (more + [0]));
    SplitAt(desc, p + 9, body, more + [0]);
  }

  lemma BlockSplit(b: seq<byte>, body: seq<byte>, more: seq<byte>)
    ensures [] + (b + body + more + [0]) == b + (body + (more + [0]))
    ensures [] + (more + [0]) == more + [0]
  {
  }

  lemma AtEnd(desc: seq<byte>, p: nat)
    requires At(desc, p, [], [])
    ensures p < |desc| && desc[p] == 0
  {
    assert desc[p..] == [0];
  }

  // ---- The core

  /** USB_FEATURE_ENDPOINT_STALL. */
  const ENDPOINT_STALL: u16 := 0

  class Core {
    const desc: seq<byte>
    ghost const configs: seq<config>
    var configuration: byte
    var numInterfaces: byte
    var mask: set<nat>         // USB_EndPointMask
    var halt: set<nat>         // USB_EndPointHalt
    var enabled: set<nat>      // endpoints switched on by USB_EnableEP

    /** Control endpoints are always there; without a configuration nothing else is;
        only enabled endpoints beyond control can be halted; and the hardware agrees. */
    ghost predicate Valid()
      reads this
    {
      && desc == Block(configs) && Distinct(configs)
      && CONTROL <= mask && halt <= mask - CONTROL && enabled == mask - CONTROL
      && (forall b | b in mask :: b < 32)
      && (configuration == 0 ==> mask == CONTROL)
      && (configuration != 0 ==> Has(configs, configuration))
    }

    /** `USB_ResetCore`, with the endpoints off as after a bus reset. */
    constructor (cs: seq<config>)
      requires Distinct(cs)
      ensures Valid() && configs == cs && configuration == 0 && mask == CONTROL && halt == {}
    {
      desc, configs := Block(cs), cs;
      configuration, numInterfaces, mask, halt, enabled := 0, 0, CONTROL, {}, {};
    }

    /** The loop that disables every endpoint of the mask beyond control, and the two
        assignments after it. */
    method DisableAll()
      requires enabled <= mask - CONTROL && forall b | b in mask :: b < 32
      modifies this`mask, this`halt, this`enabled
      ensures mask == CONTROL && halt == {} && enabled == {}
    {
      for n := 1 to 16
        invariant mask == old(mask) && halt == old(halt)
        invariant forall b | b in enabled :: b in old(enabled) && (n <= b < 16 || 16 + n <= b)
      {
        if n in mask {
          enabled := enabled - {n};
        }
        if 16 + n in mask {
          enabled := enabled - {16 + n};
        }
      }
      assert enabled == {};
      mask, halt := CONTROL, {};
    }

    /** The state of the walk after the wanted configuration has been met: what `items`
        still adds makes the mask complete. */
    ghost predicate Met(c: config, v: byte, items: seq<item>, alt: byte)
      reads this
    {
      && c.value == v && configuration == v && halt == {}
      && CONTROL <= mask && enabled == mask - CONTROL && (forall b | b in mask :: b < 32)
      && mask + Alt0(items, alt) == CONTROL + Alt0(c.items, 0)
    }

    /** The branch for the configuration that matches. */
    method Meet(ghost c: config, v: byte, interfaces: byte, ghost alt: byte)
      requires c.value == v && enabled <= mask - CONTROL && forall b | b in mask :: b < 32
      modifies this
      ensures Met(c, v, c.items, alt)
    {
      configuration := v;
      numInterfaces := interfaces;
      DisableAll();
      Alt0Owned(c.items, alt, 0);
    }

    /** The branches for interfaces and endpoints. */
    method Visit(p: nat, alt: byte, ghost c: config, ghost v: byte, ghost items: seq<item>, ghost rest: seq<config>)
      returns (p': nat, alt': byte)
      requires At(desc, p, items, rest) && items != [] && Met(c, v, items, alt)
      modifies this`mask, this`enabled
      ensures p < p' < |desc| && At(desc, p', items[1..], rest) && Met(c, v, items[1..], alt')
    {
      AtItem(desc, p, items, rest);
      ghost var b := ItemBytes(items[0]);
      assert desc[p + 0] == b[0] && desc[p + 1] == b[1];
      alt' := alt;
      if desc[p + 1] == INTERFACE {
        assert desc[p + 3] == b[3];
        alt' := desc[p + 3];
      } else if desc[p + 1] == ENDPOINT {
        assert desc[p + 2] == b[2];
        if alt == 0 {
          var bit := Bit(desc[p + 2]);
          mask := mask + {bit};
          enabled := enabled + {bit};
        }
      }
      p' := p + desc[p] as int;
    }

    /** `USB_SetConfiguration`: the walk terminates; it succeeds exactly for 0 and for
        the values the block holds; and then the enabled endpoints are control and just
        those of alternate setting 0 of that configuration, none of them halted. */
    method SetConfiguration(v: byte) returns (ok: bool)
      requires Valid()
      modifies this
      ensures Valid()
      ensures ok <==> v == 0 || Has(configs, v)
      ensures ok ==> configuration == v && halt == {}
      ensures ok && v == 0 ==> mask == CONTROL
      ensures ok && v != 0 ==> forall c | c in configs && c.value == v :: mask == CONTROL + Alt0(c.items, 0)
      ensures !ok ==> configuration == old(configuration) && mask == old(mask) && halt == old(halt)
    {
      if v != 0 {
        Walk(v);
      } else {
        configuration := 0;
        DisableAll();
      }
      ok := configuration == v;
    }

    /** The walk: `k` configurations have been entered or skipped; before the wanted one
        is met the state `s` of the core is as it was, afterwards it grows to the goal. */
    ghost predicate Walking(s: Snapshot, v: byte, p: nat, items: seq<item>, k: nat, j: int, alt: byte)
      reads this
    {
      && k <= |configs| && At(desc, p, items, configs[k..])
      && if j < 0 then
           items == [] && Now() == s && forall i | 0 <= i < k :: configs[i].value != v
         else
           j < k && Met(configs[j], v, items, alt)
    }

    ghost function Now(): Snapshot
      reads this
    {
      Snapshot(configuration, mask, halt, enabled)
    }

    /** The branch for configurations: enter the wanted one, skip any other. */
    method VisitConfig(p: nat, v: byte, ghost s: Snapshot, ghost items: seq<item>, ghost k: nat, ghost j: int,
        ghost alt: byte)
      returns (p': nat, ghost items': seq<item>, ghost j': int)
      requires Distinct(configs) && v != 0 && Walking(s, v, p, items, k, j, alt) && items == [] && k < |configs|
      requires s.enabled <= s.mask - CONTROL && forall b | b in s.mask :: b < 32
      modifies this
      ensures p < p' && Walking(s, v, p', items', k + 1, j', alt)
    {
      AtConfig(desc, p, configs[k..]);
      ghost var c, b := configs[k], HeadBytes(configs[k]);
      assert configs[k..][0] == c && configs[k..][1..] == configs[k + 1..];
      assert desc[p + 0] == b[0] && desc[p + 5] == b[5] && desc[p + 2] == b[2] && desc[p + 3] == b[3];
      items', j' := [], j;
      if desc[p + 5] == v {
        Meet(c, v, desc[p + 4], alt);
        items', j' := c.items, k;
        p' := p + desc[p] as int;
      } else {
        p' := p + (desc[p + 2] as int + 0x100 * desc[p + 3] as int);
      }
    }

    /** One turn of the loop. */
    method WalkStep(p: nat, v: byte, alt: byte, ghost s: Snapshot, ghost items: seq<item>, ghost k: nat, ghost j: int)
      returns (p': nat, alt': byte, ghost items': seq<item>, ghost k': nat, ghost j': int)
      requires Distinct(configs) && v != 0 && Walking(s, v, p, items, k, j, alt) && p < |desc| && desc[p] != 0
      requires s.enabled <= s.mask - CONTROL && forall b | b in s.mask :: b < 32
      modifies this
      ensures p < p' && Walking(s, v, p', items', k', j', alt')
    {
      KindAt(desc, p, items, configs[k..]);
      items', k', j', alt' := items, k, j, alt;
      if desc[p + 1] == CONFIGURATION {
        p', items', j' := VisitConfig(p, v, s, items, k, j, alt);
        k' := k + 1;
      } else {
        p', alt' := Visit(p, alt, configs[j], v, items, configs[k..]);
        items' := items[1..];
      }
    }

    method Walk(v: byte)
      requires Valid() && v != 0
      modifies this
      ensures Valid()
      ensures Goal(old(Now()), v)
    {
      ghost var s := Now();
      var p, alt: byte := 0, *;
      ghost var items: seq<item>, k: nat, j := [], 0, -1;
      WalkBegins(v, alt);
      while desc[p] != 0
        invariant p < |desc| && Walking(s, v, p, items, k, j, alt)
        decreases |desc| - p
      {
        p, alt, items, k, j := WalkStep(p, v, alt, s, items, k, j);
        KindAt(desc, p, items, configs[k..]);
      }
      WalkEnds(s, v, p, items, k, j, alt);
    }

    /** What a walk for `v` is for. */
    ghost predicate Goal(s: Snapshot, v: byte)
      reads this
    {
      if Has(configs, v) then
        && configuration == v && halt == {}
        && forall c | c in configs && c.value == v :: mask == CONTROL + Alt0(c.items, 0)
      else Now() == s
    }

    lemma WalkBegins(v: byte, alt: byte)
      requires Valid()
      ensures |desc| > 0 && Walking(Now(), v, 0, [], 0, -1, alt)
    {
      assert desc[0..] == desc && configs[0..] == configs && [] + Block(configs) == Block(configs);
    }

    lemma WalkEnds(s: Snapshot, v: byte, p: nat, items: seq<item>, k: nat, j: int, alt: byte)
      requires Walking(s, v, p, items, k, j, alt) && p < |desc| && desc[p] == 0
      requires desc == Block(configs) && Distinct(configs) && v != 0
      requires s.enabled == s.mask - CONTROL && CONTROL <= s.mask && s.halt <= s.mask - CONTROL
      requires forall b | b in s.mask :: b < 32
      requires (s.configuration == 0 ==> s.mask == CONTROL)
               && (s.configuration != 0 ==> Has(configs, s.configuration))
      ensures Valid() && Goal(s, v)
    {
      KindAt(desc, p, items, configs[k..]);
      if j >= 0 {
        assert configs[j].value == v;
        forall c | c in configs && c.value == v
          ensures c == configs[j]
        {
          var i :| 0 <= i < |configs| && configs[i] == c;
        }
      }
    }

    // ---- Other requests

    /** `USB_ResetCore` on a bus reset, which also switches the endpoints off. */
    method ResetCore()
      requires Valid()
      modifies this
      ensures Valid() && configuration == 0 && mask == CONTROL && halt == {}
    {
      configuration, mask, halt, enabled := 0, CONTROL, {}, {};
    }

    /** `USB_SetClrFeature` for an endpoint: halting works on exactly the enabled
        endpoints beyond control, and changes that one bit. */
    method SetClrFeature(raise: bool, index: byte, feature: u16) returns (ok: bool)
      requires Valid()
      modifies this`halt
      ensures Valid()
      ensures ok <==> configuration != 0 && Bit(index) in mask - CONTROL && feature == ENDPOINT_STALL
      ensures halt == if !ok then old(halt) else if raise then old(halt) + {Bit(index)} else old(halt) - {Bit(index)}
    {
      ok := false;
      if configuration != 0 && index % 0x10 != 0 && Bit(index) in mask {
        if feature == ENDPOINT_STALL {
          if raise {
            halt := halt + {Bit(index)};
          } else {
            halt := halt - {Bit(index)};
          }
          ok := true;
        }
      }
    }

    /** The mask and halt steps of `USB_SetInterface` for one endpoint: it is switched on
        for the wanted alternate setting, or off for the one given up. */
    method SetInterfaceEndpoint(address: byte, on: bool)
      requires Valid() && configuration != 0 && address % 0x10 != 0
      modifies this`mask, this`halt, this`enabled
      ensures Valid()
      ensures mask == if on then old(mask) + {Bit(address)} else old(mask) - {Bit(address)}
      ensures halt == old(halt) - {Bit(address)}
    {
      if on {
        mask := mask + {Bit(address)};
        halt := halt - {Bit(address)};
        enabled := enabled + {Bit(address)};
      } else {
        mask := mask - {Bit(address)};
        halt := halt - {Bit(address)};
        enabled := enabled - {Bit(address)};
      }
    }
  }

  datatype Request =
    | BusReset
    | SetConfig(v: byte)
    | ChangeHalt(raise: bool, index: byte, feature: u16)
    | InterfaceEndpoint(address: byte, on: bool)

  // ---- The core as a pure machine

  datatype Usb = Usb(configuration: byte, mask: set<nat>, halt: set<nat>)

  /** The endpoints that configuration `v` of the block uses in alternate setting 0. */
  function EndpointsOf(cs: seq<config>, v: byte): set<nat> {
    if cs == [] then {} else if cs[0].value == v then Alt0(cs[0].items, 0) else EndpointsOf(cs[1..], v)
  }

  lemma {:induction false} EndpointsAre(cs: seq<config>, i: nat)
    requires Distinct(cs) && i < |cs|
    ensures EndpointsOf(cs, cs[i].value) == Alt0(cs[i].items, 0)
  {
    if i > 0 {
      EndpointsAre(cs[1..], i - 1);
    }
  }

  function Respond(cs: seq<config>, s: Usb, r: Request): Usb {
    match r
    case BusReset => Usb(0, CONTROL, {})
    case SetConfig(v) =>
      if v == 0 then Usb(0, CONTROL, {}) else if Has(cs, v) then Usb(v, CONTROL + EndpointsOf(cs, v), {}) else s
    case ChangeHalt(raise, index, feature) =>
      if s.configuration != 0 && Bit(index) in s.mask - CONTROL && feature == ENDPOINT_STALL
      then s.(halt := if raise then s.halt + {Bit(index)} else s.halt - {Bit(index)})
      else s
    case InterfaceEndpoint(address, on) =>
      if s.configuration == 0 || address % 0x10 == 0 then s
      else s.(mask := if on then s.mask + {Bit(address)} else s.mask - {Bit(address)},
          halt := s.halt - {Bit(address)})
  }

  function RespondAll(cs: seq<config>, s: Usb, rs: seq<Request>): Usb {
    if rs == [] then s else Respond(cs, RespondAll(cs, s, rs[..|rs| - 1]), rs[|rs| - 1])
  }

  /** Halted endpoints are enabled ones beyond control; unconfigured means control alone. */
  predicate SafeState(s: Usb) {
    && CONTROL <= s.mask && s.halt <= s.mask - CONTROL
    && (s.configuration == 0 ==> s.mask == CONTROL && s.halt == {})
  }

  lemma {:induction false} AlwaysSafe(cs: seq<config>, s: Usb, rs: seq<Request>)
    requires SafeState(s)
    ensures SafeState(RespondAll(cs, s, rs))
  {
    if rs != [] {
      AlwaysSafe(cs, s, rs[..|rs| - 1]);
      SafeStep(cs, RespondAll(cs, s, rs[..|rs| - 1]), rs[|rs| - 1]);
    }
  }

  lemma SafeStep(cs: seq<config>, s: Usb, r: Request)
    requires SafeState(s)
    ensures SafeState(Respond(cs, s, r))
  {
    if r.InterfaceEndpoint? && r.address % 0x10 != 0 {
      assert Bit(r.address) !in CONTROL;
    }
  }

  /** After a successful SET_CONFIGURATION and requests that only change halts, the mask is
      still control plus exactly the endpoints of that configuration. */
  lemma {:induction false} HaltsKeepMask(cs: seq<config>, s: Usb, rs: seq<Request>)
    requires forall i | 0 <= i < |rs| :: rs[i].ChangeHalt?
    ensures RespondAll(cs, s, rs).mask == s.mask && RespondAll(cs, s, rs).configuration == s.configuration
  {
    if rs != [] {
      HaltsKeepMask(cs, s, rs[..|rs| - 1]);
    }
  }

  // ---- Which bits these are

  /** Halting or clearing an endpoint moves bit n for OUT endpoint n and bit 16 + n for IN
      endpoint n, whatever bits 4 to 6 of the address are, if that endpoint is enabled;
      otherwise nothing moves. */
  lemma HaltMoves(cs: seq<config>, s: Usb, raise: bool, n: byte, k: byte)
    requires 1 <= n < 16 && k < 8 && s.configuration != 0
    ensures var t := Respond(cs, s, ChangeHalt(raise, 16 * k + n, 0));
            t == if n in s.mask then s.(halt := if raise then s.halt + {n} else s.halt - {n}) else s
    ensures var t := Respond(cs, s, ChangeHalt(raise, 0x80 + 16 * k + n, 0));
            t == if 16 + n in s.mask then s.(halt := if raise then s.halt + {16 + n} else s.halt - {16 + n}) else s
  {
    Addresses(n, k);
  }

  lemma Addresses(n: byte, k: byte)
    requires n < 16 && k < 8
    ensures 16 * k + n < 0x80 && Bit(16 * k + n) == n && Bit(0x80 + 16 * k + n) == 16 + n
  {
  }

  /** Item `i` is an endpoint of an interface in alternate setting 0. */
  predicate InUse(items: seq<item>, i: nat)
    requires i < |items|
  {
    items[i].Endpoint? && exists k :: 0 <= k < i && Owns(items, k, i)
  }

  /** Item `k` is the last interface before item `i`, and its alternate setting is 0. */
  predicate Owns(items: seq<item>, k: nat, i: nat)
    requires k < i < |items|
  {
    items[k].Interface? && items[k].alt == 0 && forall m | k < m < i :: !items[m].Interface?
  }

  /** Alternate setting 0 has endpoint number `n` in the direction given by the top bit. */
  predicate Uses(items: seq<item>, n: nat, inward: bool) {
    exists i :: 0 <= i < |items| && InUse(items, i) && IsEndpoint(items[i], n, inward)
  }

  predicate IsEndpoint(i: item, n: nat, inward: bool) {
    i.Endpoint? && i.address % 0x10 == n && (i.address >= 0x80 <==> inward)
  }

  /** After SET_CONFIGURATION bit n is in the mask exactly if alternate setting 0 of that
      configuration has OUT endpoint n, and bit 16 + n exactly if it has IN endpoint n. */
  lemma MaskBits(cs: seq<config>, s: Usb, c: config, n: nat)
    requires Distinct(cs) && c in cs && 1 <= n < 16
    ensures var t := Respond(cs, s, SetConfig(c.value));
            t.configuration == c.value && t.halt == {}
            && (n in t.mask <==> Uses(c.items, n, false)) && (16 + n in t.mask <==> Uses(c.items, n, true))
  {
    var i :| 0 <= i < |cs| && cs[i] == c;
    EndpointsAre(cs, i);
    BitUsed(c.items, n, false);
    BitUsed(c.items, n, true);
  }

  /** The alternate setting in force at item `i`. */
  function AltAt(items: seq<item>, alt: byte, i: nat): byte
    requires i <= |items|
  {
    if i == 0 then alt else if items[i - 1].Interface? then items[i - 1].alt else AltAt(items, alt, i - 1)
  }

  lemma {:induction false} AltAtRest(items: seq<item>, alt: byte, i: nat)
    requires i < |items|
    ensures AltAt(items, alt, i + 1) == AltAt(items[1..], if items[0].Interface? then items[0].alt else alt, i)
  {
    if i > 0 {
      AltAtRest(items, alt, i - 1);
    }
  }

  /** Endpoint item `i` counts, with bit `b`. */
  predicate Counts(items: seq<item>, alt: byte, b: nat, i: nat)
    requires i < |items|
  {
    items[i].Endpoint? && Bit(items[i].address) == b && AltAt(items, alt, i) == 0
  }

  lemma {:induction false} Alt0Bits(items: seq<item>, alt: byte, b: nat)
    ensures b in Alt0(items, alt) <==> exists i :: 0 <= i < |items| && Counts(items, alt, b, i)
  {
    if items != [] {
      var rest, next := items[1..], if items[0].Interface? then items[0].alt else alt;
      Alt0Bits(rest, next, b);
      forall i | 0 <= i < |rest|
        ensures Counts(items, alt, b, i + 1) <==> Counts(rest, next, b, i)
      {
        AltAtRest(items, alt, i);
      }
      CountsSplit(items, alt, next, b);
    }
  }

  lemma CountsSplit(items: seq<item>, alt: byte, next: byte, b: nat)
    requires items != []
    requires forall i | 0 <= i < |items| - 1 :: Counts(items, alt, b, i + 1) <==> Counts(items[1..], next, b, i)
    ensures (exists i :: 0 <= i < |items| && Counts(items, alt, b, i)) <==>
            Counts(items, alt, b, 0) || exists i :: 0 <= i < |items| - 1 && Counts(items[1..], next, b, i)
  {
    if i :| 0 <= i < |items| && Counts(items, alt, b, i) {
      assert i > 0 ==> Counts(items[1..], next, b, i - 1);
    }
    if i :| 0 <= i < |items| - 1 && Counts(items[1..], next, b, i) {
      assert Counts(items, alt, b, i + 1);
    }
  }

  lemma BitUsed(items: seq<item>, n: nat, inward: bool)
    requires Owned(items) && 1 <= n < 16
    ensures (if inward then 16 + n else n) in Alt0(items, 0) <==> Uses(items, n, inward)
  {
    var b := if inward then 16 + n else n;
    Alt0Bits(items, 1, b);
    Alt0Owned(items, 0, 1);
    forall i | 0 <= i < |items|
      ensures Counts(items, 1, b, i) <==> InUse(items, i) && IsEndpoint(items[i], n, inward)
    {
      AltIs(items, i);
    }
  }

  /** An alternate setting 0 in force comes from the last interface before. */
  lemma {:induction false} AltIs(items: seq<item>, i: nat)
    requires i < |items|
    ensures AltAt(items, 1, i) == 0 <==> exists k :: 0 <= k < i && Owns(items, k, i)
  {
    if i > 0 && items[i - 1].Interface? {
      assert items[i - 1].alt == 0 ==> Owns(items, i - 1, i);
    } else if i > 0 {
      var p := i - 1;
      AltIs(items, p);
      if k :| 0 <= k < p && Owns(items, k, p) {
        assert Owns(items, k, i);
      }
      if k :| 0 <= k < i && Owns(items, k, i) {
        assert Owns(items, k, p);
      }
    }
  }

  ghost function StateOf(core: Core): Usb
    reads core
  {
    Usb(core.configuration, core.mask, core.halt)
  }

  method ServeOne(core: Core, r: Request)
    requires core.Valid()
    modifies core
    ensures core.Valid() && StateOf(core) == Respond(core.configs, old(StateOf(core)), r)
  {
    match r {
      case BusReset => core.ResetCore();
      case SetConfig(v) =>
        var ok := core.SetConfiguration(v);
        if ok && v != 0 {
          ghost var i :| 0 <= i < |core.configs| && core.configs[i].value == v;
          EndpointsAre(core.configs, i);
        }
      case ChangeHalt(raise, index, feature) =>
        var ok := core.SetClrFeature(raise, index, feature);
      case InterfaceEndpoint(address, on) =>
        if core.configuration != 0 && address % 0x10 != 0 {
          core.SetInterfaceEndpoint(address, on);
        }
    }
  }

  /** Over every sequence of requests, on every well-formed block of descriptors, the core
      goes through the states of the pure machine: halted endpoints are enabled ones
      beyond control, the hardware agrees with the mask, and while unconfigured only
      control is enabled. */
  method Serve(core: Core, rs: seq<Request>)
    requires core.Valid()
    modifies core
    ensures core.Valid() && StateOf(core) == RespondAll(core.configs, old(StateOf(core)), rs)
    ensures SafeState(StateOf(core)) && core.enabled == core.mask - CONTROL
  {
    ghost var s := StateOf(core);
    for i := 0 to |rs|
      invariant core.Valid() && StateOf(core) == RespondAll(core.configs, s, rs[..i])
    {
      assert rs[..i + 1][..i] == rs[..i];
      ServeOne(core, rs[i]);
    }
    assert rs[..|rs|] == rs;
  }

  /** The fields of the core that a failed request leaves alone. */
  datatype Snapshot = Snapshot(configuration: byte, mask: set<nat>, halt: set<nat>, enabled: set<nat>)

  /** What the type byte says about the place of the walk. */
  lemma KindAt(desc: seq<byte>, p: nat, items: seq<item>, rest: seq<config>)
    requires At(desc, p, items, rest)
    ensures p < |desc| && (desc[p] == 0 <==> items == [] && rest == [])
    ensures desc[p] != 0 ==> p + 1 < |desc| && (desc[p + 1] == CONFIGURATION <==> items == [])
  {
    if items != [] {
      AtItem(desc, p, items, rest);
      var b := ItemBytes(items[0]);
      assert desc[p + 0] == b[0] && desc[p + 1] == b[1];
    } else if rest != [] {
      AtConfig(desc, p, rest);
      var b := HeadBytes(rest[0]);
      assert desc[p + 0] == b[0] && desc[p + 1] == b[1];
    } else {
      AtEnd(desc, p);
    }
  }
}
