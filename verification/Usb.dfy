/** USB descriptors: walking the bytes of a configuration, and picking an interface from the list. */
module Usb {
  import opened Prelude

  type byte = x: int | 0 <= x < 256

  /** Fields in wire order, two-byte fields little-endian (USB 2.0, section 9.6). */
  datatype ConfigDescriptor = ConfigDescriptor(
    descLength: byte, descType: byte, totalLength: nat, numOfInterfaces: byte, configValue: byte,
    configStringIndex: byte, attribute: byte, maxPower: byte)

  datatype InterfaceDescriptor = InterfaceDescriptor(
    descLength: byte, descType: byte, interfaceNumber: byte, altSetting: byte, numOfEndpoints: byte,
    interfaceClass: byte, interfaceSubclass: byte, interfaceProtocol: byte, interfaceIndex: byte)

  datatype EndpointDescriptor = EndpointDescriptor(descLength: byte, descType: byte, endpointAddress: byte,
                                                   attributes: byte, maxPacketSize: nat, interval: byte)

  datatype UsbDescriptor =
    | Config(config: ConfigDescriptor)
    | Endpoint(endpoint: EndpointDescriptor)
    | Interface(interface: InterfaceDescriptor)
    | Unknown(descLen: byte, descType: byte)

  const CONFIG: byte := 2
  const INTERFACE: byte := 4
  const ENDPOINT: byte := 5

  /* Decoding. */

  function Word(lo: byte, hi: byte): nat { lo + 256 * hi }

  /** `copy_from_slice` and the match around it, on what is left of the buffer; `None` if it is too short. */
  function Decode(b: seq<byte>): Option<UsbDescriptor>
    requires |b| >= 2
  {
    if b[1] == CONFIG then
      if |b| < 9 then None
      else Some(Config(ConfigDescriptor(b[0], b[1], Word(b[2], b[3]), b[4], b[5], b[6], b[7], b[8])))
    else if b[1] == INTERFACE then
      if |b| < 9 then None
      else Some(Interface(InterfaceDescriptor(b[0], b[1], b[2], b[3], b[4], b[5], b[6], b[7], b[8])))
    else if b[1] == ENDPOINT then
      if |b| < 7 then None else Some(Endpoint(EndpointDescriptor(b[0], b[1], b[2], b[3], Word(b[4], b[5]), b[6])))
    else Some(Unknown(b[0], b[1]))
  }

  /** Outcome of `next`: an item and the new position, the end, or a panic on the missing type byte. */
  datatype Item = Item(desc: UsbDescriptor, index: nat) | End | Panic

  function NextItem(buf: seq<byte>, index: nat): Item
  {
    if index >= |buf| then End
    else if index + 1 == |buf| then Panic
    else
      match Decode(buf[index..])
      case None => End
      case Some(d) => Item(d, index + buf[index])
  }

  /** Outcome of collecting all items: the list, a panic, or an iterator that yields the same item for ever. */
  datatype Collected = Items(descs: seq<UsbDescriptor>) | Panics | Hangs

  function Collect(buf: seq<byte>, index: nat): Collected
    decreases |buf| - index
  {
    match NextItem(buf, index)
    case End => Items([])
    case Panic => Panics
    case Item(d, next) =>
      if next == index then Hangs
      else
        match Collect(buf, next)
        case Items(ds) => Items([d] + ds)
        case Panics => Panics
        case Hangs => Hangs
  }

  class DescriptorIterator {
    const buf: seq<byte>
    var index: nat

    constructor (buf: seq<byte>)
      ensures this.buf == buf && index == 0
    {
      this.buf := buf;
      index := 0;
    }

    /** `next`; must not be called on a single leftover byte, where indexing the type byte panics. */
    method Next() returns (r: Option<UsbDescriptor>)
      requires !NextItem(buf, index).Panic?
      modifies this
      ensures match NextItem(buf, old(index))
              case Item(d, next) => r == Some(d) && index == next
              case End => r == None && index == old(index)
              case Panic => false
    {
      if index >= |buf| {
        return None;
      }
      var rest := buf[index..];
      var descLen := rest[0];
      r := Decode(rest);
      if r.Some? {
        index := index + descLen;
      }
    }
  }

  lemma {:induction false} CollectNext(buf: seq<byte>, index: nat)
    requires NextItem(buf, index).Item? && Collect(buf, index).Items?
    ensures var item := NextItem(buf, index);
            && index < item.index && Collect(buf, item.index).Items?
            && Collect(buf, index).descs == [item.desc] + Collect(buf, item.index).descs
  {
  }

  /** `iter.collect()`, on buffers where it comes to an end. */
  method CollectAll(buf: seq<byte>) returns (descs: seq<UsbDescriptor>)
    requires Collect(buf, 0).Items?
    ensures descs == Collect(buf, 0).descs
  {
    var iter := new DescriptorIterator(buf);
    descs := [];
    while true
      invariant iter.buf == buf && Collect(buf, iter.index).Items?
      invariant descs + Collect(buf, iter.index).descs == Collect(buf, 0).descs
      decreases |buf| - iter.index
    {
      ghost var index := iter.index;
      var next := iter.Next();
      if next.None? {
        break;
      }
      CollectNext(buf, index);
      descs := descs + [next.value];
    }
  }

  /* Encoding. */

  /** A descriptor on the wire: its own fields, and whatever its length byte says follows them. */
  datatype Wire = Wire(desc: UsbDescriptor, rest: seq<byte>)

  function Fields(d: UsbDescriptor): seq<byte>
  {
    match d
    case Config(c) =>
      [c.descLength, c.descType, c.totalLength % 256, (c.totalLength / 256) % 256, c.numOfInterfaces, c.configValue,
       c.configStringIndex, c.attribute, c.maxPower]
    case Interface(i) =>
      [i.descLength, i.descType, i.interfaceNumber, i.altSetting, i.numOfEndpoints, i.interfaceClass,
       i.interfaceSubclass, i.interfaceProtocol, i.interfaceIndex]
    case Endpoint(e) =>
      [e.descLength, e.descType, e.endpointAddress, e.attributes, e.maxPacketSize % 256, (e.maxPacketSize / 256) % 256,
       e.interval]
    case Unknown(n, t) => [n, t]
  }

  function Bytes(w: Wire): seq<byte> { Fields(w.desc) + w.rest }

  /** The type byte names the kind, two-byte fields fit, and the length byte is the encoded length. */
  predicate WellFormed(w: Wire) { Bytes(w)[0] == |Bytes(w)| && KindOk(w.desc) }

  predicate KindOk(d: UsbDescriptor)
  {
    match d
    case Config(c) => c.descType == CONFIG && c.totalLength < 65536
    case Interface(i) => i.descType == INTERFACE
    case Endpoint(e) => e.descType == ENDPOINT && e.maxPacketSize < 65536
    case Unknown(n, t) => t != CONFIG && t != INTERFACE && t != ENDPOINT
  }

  function Stream(ws: seq<Wire>): seq<byte>
  {
    if ws == [] then [] else Bytes(ws[0]) + Stream(ws[1..])
  }

  function Descs(ws: seq<Wire>): seq<UsbDescriptor>
  {
    if ws == [] then [] else [ws[0].desc] + Descs(ws[1..])
  }

  lemma {:induction false} WordBytes(x: nat)
    requires x < 65536
    ensures Word(x % 256, (x / 256) % 256) == x
  {
  }

  /** Decoding only looks at the descriptor's own fields. */
  lemma {:induction false} DecodeEncoded(w: Wire, tail: seq<byte>)
    requires WellFormed(w)
    ensures |Bytes(w)| >= 2 && Decode(Bytes(w) + tail) == Some(w.desc)
  {
    var b := Bytes(w) + tail;
    assert b[..|Fields(w.desc)|] == Fields(w.desc);
    DecodeFields(w.desc, b);
  }

  lemma {:induction false} DecodeFields(d: UsbDescriptor, b: seq<byte>)
    requires |b| >= |Fields(d)| && b[..|Fields(d)|] == Fields(d) && KindOk(d)
    ensures |b| >= 2 && Decode(b) == Some(d)
  {
    forall i | 0 <= i < |Fields(d)| ensures b[i] == Fields(d)[i] { assert b[i] == b[..|Fields(d)|][i]; }
    match d
    case Config(c) => WordBytes(c.totalLength);
    case Interface(_) =>
    case Endpoint(e) => WordBytes(e.maxPacketSize);
    case Unknown(_, _) =>
  }

  /** From the start of an encoded list, wherever it stands in the buffer, collecting yields the list and stops. */
  lemma {:induction false} CollectEncoded(buf: seq<byte>, index: nat, ws: seq<Wire>)
    requires forall i | 0 <= i < |ws| :: WellFormed(ws[i])
    requires index <= |buf| && buf[index..] == Stream(ws)
    ensures Collect(buf, index) == Items(Descs(ws))
    decreases |ws|
  {
    if ws == [] {
      assert index == |buf|;
    } else {
      var next := index + |Bytes(ws[0])|;
      FirstEncoded(buf, index, ws[0], Stream(ws[1..]));
      CollectEncoded(buf, next, ws[1..]);
      assert Descs(ws) == [ws[0].desc] + Descs(ws[1..]);
    }
  }

  /** At an encoded descriptor, `next` yields it and moves to what follows. */
  lemma {:induction false} FirstEncoded(buf: seq<byte>, index: nat, w: Wire, tail: seq<byte>)
    requires WellFormed(w) && index <= |buf| && buf[index..] == Bytes(w) + tail
    ensures |Bytes(w)| > 0 && index + |Bytes(w)| <= |buf| && buf[index + |Bytes(w)|..] == tail
    ensures NextItem(buf, index) == Item(w.desc, index + |Bytes(w)|)
  {
    var n := |Bytes(w)|;
    DecodeEncoded(w, tail);
    assert buf[index] == buf[index..][0] == n;
    assert buf[index + n..] == buf[index..][n..] == tail;
  }

  /** Iterating over the concatenated encodings gives back exactly the descriptors. */
  lemma {:induction false} RoundTrip(ws: seq<Wire>)
    requires forall i | 0 <= i < |ws| :: WellFormed(ws[i])
    ensures Collect(Stream(ws), 0) == Items(Descs(ws))
  {
    assert Stream(ws)[0..] == Stream(ws);
    CollectEncoded(Stream(ws), 0, ws);
  }

  /* Buffers that are not encodings. */

  /** Bytes a descriptor of this type takes at least; a type the iterator does not know needs its first two. */
  function MinLength(descType: byte): nat
  {
    if descType == CONFIG || descType == INTERFACE then 9 else if descType == ENDPOINT then 7 else 2
  }

  /** Position `i` has a length byte, a type byte and room for a descriptor of that type. */
  predicate Room(buf: seq<byte>, i: nat) { i + 1 < |buf| && i + MinLength(buf[i + 1]) <= |buf| }

  /** Following the length bytes from `index`, as long as there is room and they are not zero, leads to `target`. */
  ghost predicate Reaches(buf: seq<byte>, index: nat, target: int)
    decreases |buf| - index
  {
    index == target || (Room(buf, index) && buf[index] > 0 && Reaches(buf, index + buf[index], target))
  }

  /** `next` yields an item exactly where there is room, and moves by the length byte. */
  lemma {:induction false} ItemIffRoom(buf: seq<byte>, index: nat)
    ensures NextItem(buf, index).Item? <==> Room(buf, index)
    ensures Room(buf, index) ==> NextItem(buf, index).index == index + buf[index]
    ensures NextItem(buf, index).Panic? <==> index == |buf| - 1
  {
    if index + 1 < |buf| { assert buf[index..][1] == buf[index + 1]; }
  }

  /** What `next` reads at each type, byte by byte (USB 2.0, sections 9.6.3, 9.6.5 and 9.6.6). */
  lemma {:induction false} ItemFields(buf: seq<byte>, i: nat)
    requires i + 1 < |buf|
    ensures buf[i + 1] == 2 && i + 9 <= |buf| ==>
              NextItem(buf, i) == Item(Config(ConfigDescriptor(
                buf[i], 2, buf[i + 2] as int + 256 * buf[i + 3] as int, buf[i + 4], buf[i + 5], buf[i + 6], buf[i + 7],
                buf[i + 8])), i + buf[i])
    ensures buf[i + 1] == 4 && i + 9 <= |buf| ==>
              NextItem(buf, i) == Item(Interface(InterfaceDescriptor(
                buf[i], 4, buf[i + 2], buf[i + 3], buf[i + 4], buf[i + 5], buf[i + 6], buf[i + 7],
                buf[i + 8])), i + buf[i])
    ensures buf[i + 1] == 5 && i + 7 <= |buf| ==>
              NextItem(buf, i) == Item(Endpoint(EndpointDescriptor(
                buf[i], 5, buf[i + 2], buf[i + 3], buf[i + 4] as int + 256 * buf[i + 5] as int, buf[i + 6])),
                i + buf[i])
    ensures buf[i + 1] !in {2, 4, 5} ==> NextItem(buf, i) == Item(Unknown(buf[i], buf[i + 1]), i + buf[i])
    ensures NextItem(buf, i) == End <==> i + (if buf[i + 1] == 2 || buf[i + 1] == 4 then 9
                                              else if buf[i + 1] == 5 then 7 else 2) > |buf|
  {
    var b := buf[i..];
    forall k: nat | i + k < |buf| ensures b[k] == buf[i + k] {}
  }

  predicate ZeroLength(buf: seq<byte>, j: nat) { Room(buf, j) && buf[j] == 0 }

  /** Collecting never ends exactly when the length bytes lead to a descriptor whose length byte is zero. */
  lemma {:induction false} HangsOnZeroLength(buf: seq<byte>, index: nat)
    ensures Collect(buf, index).Hangs? <==> exists j: nat :: Reaches(buf, index, j) && ZeroLength(buf, j)
    decreases |buf| - index
  {
    ItemIffRoom(buf, index);
    if Room(buf, index) && buf[index] == 0 {
      assert Reaches(buf, index, index) && ZeroLength(buf, index);
    } else if Room(buf, index) {
      var next := index + buf[index];
      HangsOnZeroLength(buf, next);
      if Collect(buf, next).Hangs? {
        var j: nat :| Reaches(buf, next, j) && ZeroLength(buf, j);
        assert Reaches(buf, index, j);
      }
      if j: nat :| Reaches(buf, index, j) && ZeroLength(buf, j) {
        assert Reaches(buf, next, j);
      }
    }
  }

  /** It panics exactly when they lead to the last byte of the buffer, where there is no type byte. */
  lemma {:induction false} PanicsOnLoneByte(buf: seq<byte>, index: nat)
    ensures Collect(buf, index).Panics? <==> Reaches(buf, index, |buf| - 1)
    decreases |buf| - index
  {
    ItemIffRoom(buf, index);
    if Room(buf, index) && buf[index] > 0 { PanicsOnLoneByte(buf, index + buf[index]); }
  }

  /** Position after `k` calls of `next`. */
  function After(buf: seq<byte>, index: nat, k: nat): nat
    decreases k
  {
    if k == 0 || !NextItem(buf, index).Item? then index else After(buf, NextItem(buf, index).index, k - 1)
  }

  /** What hanging means: from some call on, every call of `next` yields the same descriptor again. */
  lemma {:induction false} HangsForever(buf: seq<byte>, index: nat) returns (n: nat, j: nat)
    requires Collect(buf, index).Hangs?
    ensures ZeroLength(buf, j) && NextItem(buf, j).Item? && NextItem(buf, j).index == j
    ensures forall k: nat :: k >= n ==> After(buf, index, k) == j
    decreases |buf| - index
  {
    ItemIffRoom(buf, index);
    var next := NextItem(buf, index).index;
    if next == index {
      n, j := 0, index;
      forall k: nat ensures After(buf, index, k) == j { Stays(buf, index, k); }
    } else {
      n, j := HangsForever(buf, next);
      n := n + 1;
      forall k: nat | k >= n ensures After(buf, index, k) == j {
        assert After(buf, index, k) == After(buf, next, k - 1);
      }
    }
  }

  lemma {:induction false} Stays(buf: seq<byte>, j: nat, k: nat)
    requires NextItem(buf, j).Item? && NextItem(buf, j).index == j
    ensures After(buf, j, k) == j
    decreases k
  {
    if k > 0 { Stays(buf, j, k - 1); }
  }

  /** The smallest buffers that hang and that panic. */
  lemma {:induction false} SmallestFailures()
    ensures Collect([0, 0], 0).Hangs? && Collect([2], 0).Panics?
  {
    ItemIffRoom([0, 0], 0);
    ItemIffRoom([2], 0);
  }

  /* Picking an interface. */

  datatype Picked = Picked(config: ConfigDescriptor, interface: InterfaceDescriptor, endpoints: seq<EndpointDescriptor>)

  type Triple = (byte, byte, byte)

  function TripleOf(i: InterfaceDescriptor): Triple { (i.interfaceClass, i.interfaceSubclass, i.interfaceProtocol) }

  /** An interface of this class, subclass and protocol. */
  predicate IsMatch(d: UsbDescriptor, triple: Triple)
  {
    && d.Interface? && d.interface.interfaceClass == triple.0 && d.interface.interfaceSubclass == triple.1
    && d.interface.interfaceProtocol == triple.2
  }

  /** The descriptors up to the next Config. */
  function Body(ds: seq<UsbDescriptor>): (b: seq<UsbDescriptor>)
    ensures b <= ds && (forall d | d in b :: !d.Config?) && (|b| < |ds| ==> ds[|b|].Config?)
  {
    if ds == [] || ds[0].Config? then [] else [ds[0]] + Body(ds[1..])
  }

  function LastMatch(ds: seq<UsbDescriptor>, triple: Triple): Option<InterfaceDescriptor>
  {
    if ds == [] then None
    else if IsMatch(ds[|ds| - 1], triple) then Some(ds[|ds| - 1].interface)
    else LastMatch(ds[..|ds| - 1], triple)
  }

  function Endpoints(ds: seq<UsbDescriptor>): seq<EndpointDescriptor>
  {
    if ds == [] then []
    else Endpoints(ds[..|ds| - 1]) + if ds[|ds| - 1].Endpoint? then [ds[|ds| - 1].endpoint] else []
  }

  /** The first configuration block with a matching interface: its Config, its last matching Interface and all its
      Endpoints. */
  function PickBlock(ds: seq<UsbDescriptor>, triple: Triple): Option<Picked>
    requires ds == [] || ds[0].Config?
  {
    if ds == [] then None
    else
      var body := Body(ds[1..]);
      var found := LastMatch(body, triple);
      if found.Some? then Some(Picked(ds[0].config, found.value, Endpoints(body)))
      else PickBlock(ds[1 + |body|..], triple)
  }

  /** A match in front of every Config ends the search with nothing. */
  function Pick(ds: seq<UsbDescriptor>, triple: Triple): Option<Picked>
  {
    if LastMatch(Body(ds), triple).Some? then None else PickBlock(ds[|Body(ds)|..], triple)
  }

  lemma {:induction false} BodyIs(ds: seq<UsbDescriptor>, n: nat)
    requires n <= |ds| && (forall i | 0 <= i < n :: !ds[i].Config?) && (n < |ds| ==> ds[n].Config?)
    ensures Body(ds) == ds[..n]
  {
    var b := Body(ds);
    forall k | 0 <= k < |b| ensures !ds[k].Config? { assert b[k] in b; }
  }

  /** The loop of `pick_interface_with_triple`. */
  method PickInterfaceWithTriple(descriptors: seq<UsbDescriptor>, triple: Triple) returns (r: Option<Picked>)
    ensures r == Pick(descriptors, triple)
    ensures r.Some? ==> var i := r.value.interface;
                        (i.interfaceClass, i.interfaceSubclass, i.interfaceProtocol) == triple
  {
    PickMeaning(descriptors, triple);
    var config: Option<ConfigDescriptor> := None;
    var interface: Option<InterfaceDescriptor> := None;
    var epList: seq<EndpointDescriptor> := [];
    FirstStep(descriptors, triple);
    LoopIsPick(descriptors, triple, 0, 0, config, interface, epList);
    var i := 0;
    while i < |descriptors|
      invariant i <= |descriptors|
      invariant PickFrom(descriptors, triple, i, config, interface, epList) == Pick(descriptors, triple)
      decreases |descriptors| - i
    {
      match descriptors[i] {
        case Config(e) =>
          if interface.Some? {
            break;
          }
          config := Some(e);
          epList := [];
        case Interface(e) =>
          if triple == TripleOf(e) {
            interface := Some(e);
          }
        case Endpoint(e) => epList := epList + [e];
        case Unknown(_, _) =>
      }
      i := i + 1;
    }
    r := Answer(config, interface, epList);
  }

  /** What is returned when the loop stops with these variables. */
  function Answer(config: Option<ConfigDescriptor>, interface: Option<InterfaceDescriptor>,
                  epList: seq<EndpointDescriptor>): Option<Picked>
  {
    if config.Some? && interface.Some? then Some(Picked(config.value, interface.value, epList)) else None
  }

  /** What the loop returns from position `i` on. */
  function PickFrom(ds: seq<UsbDescriptor>, triple: Triple, i: nat, config: Option<ConfigDescriptor>,
                    interface: Option<InterfaceDescriptor>, epList: seq<EndpointDescriptor>): Option<Picked>
    requires i <= |ds|
    decreases |ds| - i
  {
    if i == |ds| || (ds[i].Config? && interface.Some?) then Answer(config, interface, epList)
    else
      match ds[i]
      case Config(e) => PickFrom(ds, triple, i + 1, Some(e), interface, [])
      case Interface(e) =>
        PickFrom(ds, triple, i + 1, config, if triple == TripleOf(e) then Some(e) else interface, epList)
      case Endpoint(e) => PickFrom(ds, triple, i + 1, config, interface, epList + [e])
      case Unknown(_, _) => PickFrom(ds, triple, i + 1, config, interface, epList)
  }

  /** From inside a block, the rest of the loop gives the answer of the block specification. */
  lemma {:induction false} LoopIsPick(ds: seq<UsbDescriptor>, triple: Triple, start: nat, i: nat,
                                      config: Option<ConfigDescriptor>, interface: Option<InterfaceDescriptor>,
                                      epList: seq<EndpointDescriptor>)
    requires InLoop(ds, triple, start, i, config, interface, epList)
    ensures PickFrom(ds, triple, i, config, interface, epList) == Pick(ds, triple)
    decreases |ds| - i
  {
    if i == |ds| || (ds[i].Config? && interface.Some?) {
      LastStep(ds, triple, start, i, config, interface, epList);
    } else if ds[i].Config? {
      ConfigStep(ds, triple, start, i, config, epList);
      LoopIsPick(ds, triple, i + 1, i + 1, Some(ds[i].config), None, []);
    } else {
      var interface', epList' := AfterOther(ds[i], triple, interface), AfterEndpoint(ds[i], epList);
      OtherStep(ds, triple, start, i, config, interface, epList);
      LoopIsPick(ds, triple, start, i + 1, config, interface', epList');
    }
  }

  function AfterOther(d: UsbDescriptor, triple: Triple,
                      interface: Option<InterfaceDescriptor>): Option<InterfaceDescriptor>
  {
    if IsMatch(d, triple) then Some(d.interface) else interface
  }

  function AfterEndpoint(d: UsbDescriptor, epList: seq<EndpointDescriptor>): seq<EndpointDescriptor>
  {
    if d.Endpoint? then epList + [d.endpoint] else epList
  }

  /** Positions `start .. i` are the block of `config` seen so far, and the answer lies in it or behind it. */
  ghost predicate InBlock(ds: seq<UsbDescriptor>, triple: Triple, start: nat, i: nat, config: Option<ConfigDescriptor>)
  {
    && start <= i <= |ds| && (forall j | start <= j < i :: !ds[j].Config?)
    && if config.None? then start == 0
       else start > 0 && ds[start - 1] == Config(config.value) && Pick(ds, triple) == PickBlock(ds[start - 1..], triple)
  }

  /** The loop's variables are what the block seen so far says. */
  ghost predicate InLoop(ds: seq<UsbDescriptor>, triple: Triple, start: nat, i: nat, config: Option<ConfigDescriptor>,
                         interface: Option<InterfaceDescriptor>, epList: seq<EndpointDescriptor>)
  {
    && i <= |ds|
    && forall key {:trigger Opened(key)} | Opened(key) ::
         && InBlock(ds, triple, start, i, config)
         && interface == LastMatch(ds[start..i], triple) && epList == Endpoints(ds[start..i])
  }

  lemma {:induction false} FirstStep(ds: seq<UsbDescriptor>, triple: Triple)
    ensures InLoop(ds, triple, 0, 0, None, None, [])
  {
  }

  lemma {:induction false} OtherStep(ds: seq<UsbDescriptor>, triple: Triple, start: nat, i: nat,
                                     config: Option<ConfigDescriptor>, interface: Option<InterfaceDescriptor>,
                                     epList: seq<EndpointDescriptor>)
    requires InLoop(ds, triple, start, i, config, interface, epList) && i < |ds| && !ds[i].Config?
    ensures InLoop(ds, triple, start, i + 1, config, AfterOther(ds[i], triple, interface), AfterEndpoint(ds[i], epList))
  {
    assert Opened(0);
    BlockGrows(ds, triple, start, i);
  }

  lemma {:induction false} ConfigStep(ds: seq<UsbDescriptor>, triple: Triple, start: nat, i: nat,
                                      config: Option<ConfigDescriptor>, epList: seq<EndpointDescriptor>)
    requires InLoop(ds, triple, start, i, config, None, epList) && i < |ds| && ds[i].Config?
    ensures InLoop(ds, triple, i + 1, i + 1, Some(ds[i].config), None, [])
  {
    assert Opened(0);
    NextBlock(ds, triple, start, i, config);
  }

  lemma {:induction false} LastStep(ds: seq<UsbDescriptor>, triple: Triple, start: nat, i: nat,
                                    config: Option<ConfigDescriptor>, interface: Option<InterfaceDescriptor>,
                                    epList: seq<EndpointDescriptor>)
    requires InLoop(ds, triple, start, i, config, interface, epList)
    requires i < |ds| ==> ds[i].Config? && interface.Some?
    ensures Pick(ds, triple) == Answer(config, interface, epList)
  {
    assert Opened(0);
    LastBlock(ds, triple, start, i, config);
  }

  lemma {:induction false} BlockGrows(ds: seq<UsbDescriptor>, triple: Triple, start: nat, i: nat)
    requires start <= i < |ds|
    ensures var d := ds[i];
            && LastMatch(ds[start..i + 1], triple)
               == (if IsMatch(d, triple) then Some(d.interface) else LastMatch(ds[start..i], triple))
            && Endpoints(ds[start..i + 1]) == Endpoints(ds[start..i]) + if d.Endpoint? then [d.endpoint] else []
  {
    assert ds[start..i + 1][..i - start] == ds[start..i];
  }

  /** A Config after a block without a match starts the block to look at next. */
  lemma {:induction false} NextBlock(ds: seq<UsbDescriptor>, triple: Triple, start: nat, i: nat,
                                     config: Option<ConfigDescriptor>)
    requires InBlock(ds, triple, start, i, config) && i < |ds| && ds[i].Config?
    requires LastMatch(ds[start..i], triple).None?
    ensures InBlock(ds, triple, i + 1, i + 1, Some(ds[i].config))
  {
    BodyFrom(ds, start, i);
    if config.None? {
      assert ds[0..] == ds;
    } else {
      NextAfter(ds[start - 1..], triple, i - start);
      assert ds[start - 1..][1..] == ds[start..];
      assert ds[start - 1..][1 + (i - start)..] == ds[i..];
    }
  }

  lemma {:induction false} BodyFrom(ds: seq<UsbDescriptor>, start: nat, i: nat)
    requires start <= i <= |ds| && (forall j | start <= j < i :: !ds[j].Config?) && (i < |ds| ==> ds[i].Config?)
    ensures Body(ds[start..]) == ds[start..i]
  {
    BodyIs(ds[start..], i - start);
    assert ds[start..][..i - start] == ds[start..i];
  }

  /** Past a block without a match. */
  lemma {:induction false} NextAfter(block: seq<UsbDescriptor>, triple: Triple, n: nat)
    requires block != [] && block[0].Config? && |Body(block[1..])| == n && LastMatch(Body(block[1..]), triple).None?
    ensures 1 + n <= |block| && PickBlock(block, triple) == PickBlock(block[1 + n..], triple)
  {
  }

  /** What the block the loop stopped in says. */
  lemma {:induction false} LastBlock(ds: seq<UsbDescriptor>, triple: Triple, start: nat, i: nat,
                                     config: Option<ConfigDescriptor>)
    requires InBlock(ds, triple, start, i, config)
    requires i < |ds| ==> ds[i].Config? && LastMatch(ds[start..i], triple).Some?
    ensures Pick(ds, triple) ==
              var found := LastMatch(ds[start..i], triple);
              Answer(config, found, Endpoints(ds[start..i]))
  {
    BodyFrom(ds, start, i);
    if config.None? {
      assert ds[0..] == ds;
    } else {
      var block := ds[start - 1..];
      assert block[1..] == ds[start..] && block[0] == Config(config.value);
      if LastMatch(ds[start..i], triple).None? {
        assert block[1 + (i - start)..] == [];
        assert PickBlock(block, triple) == PickBlock([], triple);
      }
    }
  }

  /* What the answer means, position by position. */

  /** The first matching interface stands at `m`. */
  ghost predicate FirstMatchAt(ds: seq<UsbDescriptor>, triple: Triple, m: nat)
  {
    m < |ds| && IsMatch(ds[m], triple) && forall j | 0 <= j < m :: !IsMatch(ds[j], triple)
  }

  lemma {:induction false} LastMatchNone(ds: seq<UsbDescriptor>, triple: Triple)
    ensures LastMatch(ds, triple).None? <==> forall i | 0 <= i < |ds| :: !IsMatch(ds[i], triple)
  {
    if ds != [] { LastMatchNone(ds[..|ds| - 1], triple); }
  }

  /** The match at `m` is in the block of the Config at `c`, which ends at `e`. */
  ghost predicate BlockAt(ds: seq<UsbDescriptor>, m: nat, c: nat, e: nat)
  {
    && c < m < e <= |ds| && ds[c].Config? && (forall j | c < j < e :: !ds[j].Config?)
    && (e < |ds| ==> ds[e].Config?)
  }

  /** What is picked from that block. */
  function FromBlock(ds: seq<UsbDescriptor>, triple: Triple, c: nat, e: nat): Option<Picked>
    requires c < e <= |ds| && ds[c].Config?
  {
    Answer(Some(ds[c].config), LastMatch(ds[c + 1..e], triple), Endpoints(ds[c + 1..e]))
  }

  /** Where the block of the Config at `c` ends, and what is in it. */
  lemma {:induction false} BlockEnd(ds: seq<UsbDescriptor>, c: nat) returns (e: nat)
    requires c < |ds|
    ensures c < e <= |ds| && (forall j | c < j < e :: !ds[j].Config?) && (e < |ds| ==> ds[e].Config?)
    ensures ds[c..] != [] && ds[c..][0] == ds[c] && Body(ds[c..][1..]) == ds[c + 1..e]
  {
    var rest := ds[c + 1..];
    var body := Body(rest);
    assert ds[c..][1..] == rest;
    e := c + 1 + |body|;
    assert body == ds[c + 1..e];
    forall j | c < j < e ensures !ds[j].Config? { assert body[j - c - 1] in body && body[j - c - 1] == ds[j]; }
    assert e < |ds| ==> rest[|body|] == ds[e];
  }

  /** From a Config on, the answer comes from the block with the first match. */
  lemma {:induction false} PickFromConfig(ds: seq<UsbDescriptor>, triple: Triple, n: nat, m: nat)
    returns (c: nat, e: nat)
    requires n <= m && FirstMatchAt(ds, triple, m) && ds[n].Config?
    ensures BlockAt(ds, m, c, e) && PickBlock(ds[n..], triple) == FromBlock(ds, triple, c, e)
    decreases |ds| - n
  {
    c := n;
    e := BlockEnd(ds, n);
    MatchInBlock(ds, triple, n, e, m);
    if m >= e {
      NextAfter(ds[n..], triple, e - n - 1);
      assert ds[n..][1 + (e - n - 1)..] == ds[e..];
      c, e := PickFromConfig(ds, triple, e, m);
    }
  }

  lemma {:induction false} MatchInBlock(ds: seq<UsbDescriptor>, triple: Triple, c: nat, e: nat, m: nat)
    requires c < e <= |ds| && c < m && FirstMatchAt(ds, triple, m)
    ensures LastMatch(ds[c + 1..e], triple).Some? <==> m < e
  {
    var block := ds[c + 1..e];
    LastMatchNone(block, triple);
    if m < e { assert block[m - c - 1] == ds[m]; }
  }

  lemma {:induction false} NoMatchNoBlock(ds: seq<UsbDescriptor>, triple: Triple)
    requires (ds == [] || ds[0].Config?) && forall i | 0 <= i < |ds| :: !IsMatch(ds[i], triple)
    ensures PickBlock(ds, triple).None?
  {
    if ds != [] {
      var body := Body(ds[1..]);
      LastMatchNone(body, triple);
      forall i | 0 <= i < |body| ensures !IsMatch(body[i], triple) { assert body[i] == ds[1 + i]; }
      NoMatchNoBlock(ds[1 + |body|..], triple);
    }
  }

  /** The last match of a block. */
  lemma {:induction false} LastMatchIs(ds: seq<UsbDescriptor>, triple: Triple) returns (l: nat)
    requires LastMatch(ds, triple).Some?
    ensures l < |ds| && IsMatch(ds[l], triple) && ds[l].interface == LastMatch(ds, triple).value
    ensures forall j | l < j < |ds| :: !IsMatch(ds[j], triple)
  {
    l := |ds| - 1;
    if !IsMatch(ds[l], triple) { l := LastMatchIs(ds[..l], triple); }
  }

  /** `eps` are all Endpoints at positions `lo .. hi`, in order: those at the positions `at`. */
  ghost predicate EndpointsAt(ds: seq<UsbDescriptor>, lo: nat, hi: nat, eps: seq<EndpointDescriptor>, at: seq<nat>)
    requires hi <= |ds|
  {
    && |at| == |eps| && (forall i | 0 <= i < |at| :: lo <= at[i] < hi && ds[at[i]] == Endpoint(eps[i]))
    && (forall i, j | 0 <= i < j < |at| :: at[i] < at[j])
    && (forall j | lo <= j < hi && ds[j].Endpoint? :: j in at)
  }

  lemma {:induction false} EndpointsAre(ds: seq<UsbDescriptor>, lo: nat, hi: nat) returns (at: seq<nat>)
    requires lo <= hi <= |ds|
    ensures EndpointsAt(ds, lo, hi, Endpoints(ds[lo..hi]), at)
    decreases hi
  {
    if lo == hi {
      at := [];
    } else {
      at := EndpointsAre(ds, lo, hi - 1);
      assert ds[lo..hi][..hi - 1 - lo] == ds[lo..hi - 1];
      if ds[hi - 1].Endpoint? { at := at + [hi - 1]; }
    }
  }

  /** The result comes from the block of the Config at `c`, which ends at `e` and holds the first match of all, at `m`:
      its Config, its last match, at `l`, and its Endpoints, at the positions `at`. */
  ghost predicate PickedFrom(ds: seq<UsbDescriptor>, triple: Triple, r: Picked, c: nat, m: nat, e: nat, l: nat,
                             at: seq<nat>)
  {
    && FirstMatchAt(ds, triple, m) && BlockAt(ds, m, c, e) && ds[c] == Config(r.config)
    && m <= l < e && IsMatch(ds[l], triple) && ds[l] == Interface(r.interface)
    && (forall j | l < j < e :: !IsMatch(ds[j], triple))
    && EndpointsAt(ds, c, e, r.endpoints, at)
  }

  lemma {:induction false} FromBlockMeaning(ds: seq<UsbDescriptor>, triple: Triple, c: nat, m: nat, e: nat)
    returns (l: nat, at: seq<nat>)
    requires FirstMatchAt(ds, triple, m) && BlockAt(ds, m, c, e)
    ensures FromBlock(ds, triple, c, e).Some?
    ensures PickedFrom(ds, triple, FromBlock(ds, triple, c, e).value, c, m, e, l, at)
  {
    l := LastOfBlock(ds, triple, c, m, e);
    at := EndpointsAre(ds, c + 1, e);
  }

  lemma {:induction false} LastOfBlock(ds: seq<UsbDescriptor>, triple: Triple, c: nat, m: nat, e: nat) returns (l: nat)
    requires c < m < e <= |ds| && IsMatch(ds[m], triple)
    ensures m <= l < e && IsMatch(ds[l], triple) && LastMatch(ds[c + 1..e], triple) == Some(ds[l].interface)
    ensures forall j | l < j < e :: !IsMatch(ds[j], triple)
  {
    var block := ds[c + 1..e];
    LastMatchNone(block, triple);
    assert block[m - c - 1] == ds[m];
    l := LastMatchIs(block, triple);
    forall j | c + 1 + l < j < e ensures !IsMatch(ds[j], triple) { assert ds[j] == block[j - c - 1]; }
    l := l + c + 1;
  }

  /** Something is picked exactly when some Config stands before the first match; it comes from the nearest one's
      block. */
  lemma {:induction false} PickMeaning(ds: seq<UsbDescriptor>, triple: Triple)
    ensures Pick(ds, triple).Some? <==>
              exists c: nat, m: nat :: c < m && FirstMatchAt(ds, triple, m) && ds[c].Config?
    ensures Pick(ds, triple).Some? ==>
              exists c, m, e, l, at :: PickedFrom(ds, triple, Pick(ds, triple).value, c, m, e, l, at)
  {
    var body := Body(ds);
    var n := |body|;
    LastMatchNone(body, triple);
    forall i | 0 <= i < n ensures body[i] == ds[i] && !ds[i].Config? { assert body[i] in body; }
    if m: nat :| FirstMatchAt(ds, triple, m) {
      if m < n {
        assert IsMatch(body[m], triple);
        forall k: nat | FirstMatchAt(ds, triple, k) ensures k == m {}
      } else {
        var c, e := PickFromConfig(ds, triple, n, m);
        var l, at := FromBlockMeaning(ds, triple, c, m, e);
        assert ds[c].Config? && c < m && FirstMatchAt(ds, triple, m);
      }
    } else {
      NoFirstMatch(ds, triple);
      NoMatchNoBlock(ds[n..], triple);
    }
  }

  lemma {:induction false} NoFirstMatch(ds: seq<UsbDescriptor>, triple: Triple)
    requires !(exists m: nat :: FirstMatchAt(ds, triple, m))
    ensures forall i | 0 <= i < |ds| :: !IsMatch(ds[i], triple)
  {
    if i :| 0 <= i < |ds| && IsMatch(ds[i], triple) {
      FirstBefore(ds, triple, i);
      assert false;
    }
  }

  lemma {:induction false} FirstBefore(ds: seq<UsbDescriptor>, triple: Triple, i: nat)
    requires i < |ds| && IsMatch(ds[i], triple)
    ensures exists m: nat :: FirstMatchAt(ds, triple, m)
  {
    if j: nat :| j < i && IsMatch(ds[j], triple) {
      FirstBefore(ds, triple, j);
    } else {
      assert FirstMatchAt(ds, triple, i);
    }
  }
}
