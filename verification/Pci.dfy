/** The PCI bus walk: drivers/x86/system/Pci.cpp, over a configuration space that does not change. */
module Pci {
  import opened Bitmask

  /** readConfig32 as a function of bus, device, function and offset. */
  type Config = (bv8, nat, nat, nat) -> bv32

  datatype Place = Place(bus: bv8, device: nat, fn: nat)

  datatype PciDevice = PciDevice(id: bv32, fullClass: bv32, place: Place)

  /** A vendor id of FFFFh says that nothing answers there. */
  predicate Present(cfg: Config, p: Place) {
    cfg(p.bus, p.device, p.fn, 0x00) & 0xffff != 0xffff
  }

  predicate MultiFunction(cfg: Config, bus: bv8, device: nat) {
    (cfg(bus, device, 0, 0x0c) >> 16) & 0xff & 0x80 != 0
  }

  /** The functions of a bus that are looked for: all of a multi-function device, else number 0;
      none if number 0 is absent. */
  predicate Listed(cfg: Config, p: Place) {
    && p.device < 32 && p.fn < 8
    && Present(cfg, Place(p.bus, p.device, 0)) && Present(cfg, p)
    && (p.fn == 0 || MultiFunction(cfg, p.bus, p.device))
  }

  predicate Bridge(cfg: Config, p: Place) {
    cfg(p.bus, p.device, p.fn, 0x08) >> 16 == 0x0604
  }

  /** The secondary bus number is always read from function 0 of the device. */
  function Secondary(cfg: Config, bus: bv8, device: nat): bv8 {
    ((cfg(bus, device, 0, 0x18) >> 8) & 0xff) as bv8
  }

  function DeviceAt(cfg: Config, p: Place): PciDevice {
    PciDevice(cfg(p.bus, p.device, p.fn, 0x00), cfg(p.bus, p.device, p.fn, 0x08), p)
  }

  /** Register 00h holds the vendor id below the device id. */
  lemma PresentIff(cfg: Config, p: Place, vendor: bv16, device: bv16)
    requires cfg(p.bus, p.device, p.fn, 0x00) == (device as bv32 << 16) | vendor as bv32
    ensures Present(cfg, p) <==> vendor != 0xffff
  {
  }

  /** Register 0Ch holds the cache line size, the latency timer, the header type and the self test. */
  lemma MultiFunctionIff(cfg: Config, bus: bv8, device: nat, line: bv8, timer: bv8, header: bv8, test: bv8)
    requires cfg(bus, device, 0, 0x0c) ==
      (test as bv32 << 24) | (header as bv32 << 16) | (timer as bv32 << 8) | line as bv32
    ensures MultiFunction(cfg, bus, device) <==> header & 0x80 != 0
  {
  }

  /** Register 08h holds the revision, the programming interface, the subclass and the class. */
  lemma BridgeIff(cfg: Config, p: Place, revision: bv8, interface: bv8, subclass: bv8, class_: bv8)
    requires cfg(p.bus, p.device, p.fn, 0x08) ==
      (class_ as bv32 << 24) | (subclass as bv32 << 16) | (interface as bv32 << 8) | revision as bv32
    ensures Bridge(cfg, p) <==> class_ == 0x06 && subclass == 0x04
  {
  }

  /** Register 18h holds the primary, the secondary and the subordinate bus number and a timer. */
  lemma SecondaryIs(cfg: Config, bus: bv8, device: nat, primary: bv8, secondary: bv8, subordinate: bv8, timer: bv8)
    requires cfg(bus, device, 0, 0x18) ==
      (timer as bv32 << 24) | (subordinate as bv32 << 16) | (secondary as bv32 << 8) | primary as bv32
    ensures Secondary(cfg, bus, device) == secondary
  {
  }

  lemma BitOfWord(word: bv32)
    ensures (word >> 16) & 0xff & 0x80 != 0 <==> word & 0x0080_0000 != 0
  {
  }

  /** There are 32 devices with 8 functions each. Function 0 is listed if it is there, the others if
      function 0 is there too and says that the device has several. */
  lemma ListedIff(cfg: Config, bus: bv8, device: nat, fn: nat)
    ensures Listed(cfg, Place(bus, device, fn)) <==>
      && device < 32 && fn < 8
      && cfg(bus, device, 0, 0x00) & 0xffff != 0xffff
      && cfg(bus, device, fn, 0x00) & 0xffff != 0xffff
      && (fn == 0 || cfg(bus, device, 0, 0x0c) & 0x0080_0000 != 0)
  {
    BitOfWord(cfg(bus, device, 0, 0x0c));
  }

  // ------------------------------------------------------- the bridge graph

  /** The code's own edges: some listed bridge of bus a has bus b behind it. */
  ghost predicate Edge(cfg: Config, a: bv8, b: bv8) {
    exists p: Place :: p.bus == a && Listed(cfg, p) && Bridge(cfg, p) && Secondary(cfg, a, p.device) == b
  }

  lemma EdgeHere(cfg: Config, bus: bv8, device: nat, fn: nat)
    requires Listed(cfg, Place(bus, device, fn)) && Bridge(cfg, Place(bus, device, fn))
    ensures Edge(cfg, bus, Secondary(cfg, bus, device))
  {
    var p := Place(bus, device, fn);
    assert p.bus == bus && Secondary(cfg, bus, p.device) == Secondary(cfg, bus, device);
  }

  ghost predicate Path(cfg: Config, path: seq<bv8>, a: bv8, b: bv8)
    decreases |path|
  {
    path != [] && path[0] == a
    && if |path| == 1 then a == b else Edge(cfg, a, path[1]) && Path(cfg, path[1..], path[1], b)
  }

  ghost predicate Reaches(cfg: Config, a: bv8, b: bv8) {
    exists path :: Path(cfg, path, a, b)
  }

  lemma ReachesItself(cfg: Config, a: bv8)
    ensures Reaches(cfg, a, a)
  {
    assert Path(cfg, [a], a, a);
  }

  lemma ReachesThrough(cfg: Config, a: bv8, b: bv8, c: bv8)
    requires Edge(cfg, a, b) && Reaches(cfg, b, c)
    ensures Reaches(cfg, a, c)
  {
    var path :| Path(cfg, path, b, c);
    assert ([a] + path)[1..] == path;
    assert Path(cfg, [a] + path, a, c);
  }

  ghost predicate Closed(cfg: Config, buses: set<bv8>) {
    forall a, b | a in buses && Edge(cfg, a, b) :: b in buses
  }

  /** A set of buses with no edge out of it holds everything that its members reach. */
  lemma {:induction false} ClosedHoldsPath(cfg: Config, buses: set<bv8>, path: seq<bv8>, a: bv8, b: bv8)
    requires Closed(cfg, buses) && a in buses && Path(cfg, path, a, b)
    ensures b in buses
    decreases |path|
  {
    if |path| > 1 {
      ClosedHoldsPath(cfg, buses, path[1..], path[1], b);
    }
  }

  // -------------------------------------------------------- device listings

  ghost predicate HasPlace(devices: seq<PciDevice>, p: Place) {
    exists i :: 0 <= i < |devices| && devices[i].place == p
  }

  /** The devices are at the places of the set, one each, with what configuration space says of them. */
  ghost predicate Lists(cfg: Config, devices: seq<PciDevice>, places: iset<Place>) {
    && (forall i, j | 0 <= i < j < |devices| :: devices[i].place != devices[j].place)
    && (forall i | 0 <= i < |devices| :: devices[i] == DeviceAt(cfg, devices[i].place))
    && (forall p :: p in places <==> HasPlace(devices, p))
  }

  lemma ListsOneMore(cfg: Config, devices: seq<PciDevice>, places: iset<Place>, p: Place)
    requires Lists(cfg, devices, places) && p !in places
    ensures Lists(cfg, devices + [DeviceAt(cfg, p)], places + iset{p})
  {
    var more := devices + [DeviceAt(cfg, p)];
    forall q ensures q in places + iset{p} <==> HasPlace(more, q) {
      if q == p {
        assert more[|devices|].place == p;
      } else if q in places {
        var i :| 0 <= i < |devices| && devices[i].place == q;
        assert more[i].place == q;
      }
    }
    forall i | 0 <= i < |devices| ensures devices[i].place != p {
      assert HasPlace(devices, devices[i].place);
    }
  }

  ghost function On(cfg: Config, buses: set<bv8>): iset<Place> {
    iset p: Place | p.bus in buses && Listed(cfg, p)
  }

  /** The listed places of one bus before the given device and function. */
  ghost function Before(cfg: Config, bus: bv8, device: nat, fn: nat): iset<Place> {
    iset p: Place | p.bus == bus && Listed(cfg, p) && (p.device < device || (p.device == device && p.fn < fn))
  }

  /** What a scan of `bus` did: `grown` went on from the buses `seen`, reached them from `bus`,
      and found every bus behind a bridge of theirs. */
  ghost predicate Explored(cfg: Config, bus: bv8, seen: set<bv8>, grown: set<bv8>) {
    && seen <= grown
    && (forall b | b in grown - seen :: Reaches(cfg, bus, b))
    && (forall b, c | b in grown - seen && Edge(cfg, b, c) :: c in grown)
  }

  /** What is listed inside the loops of scan_bus, before the given device and function. */
  ghost function Known(cfg: Config, bus: bv8, seen: set<bv8>, now: set<bv8>, places: iset<Place>,
                       device: nat, fn: nat): iset<Place>
  {
    places + On(cfg, now - seen - {bus}) + Before(cfg, bus, device, fn)
  }

  /** The state inside the loops of scan_bus, before the given device and function. */
  ghost predicate Scanning(cfg: Config, bus: bv8, seen: set<bv8>, now: set<bv8>, devices: seq<PciDevice>,
                           places: iset<Place>, device: nat, fn: nat)
  {
    && seen + {bus} <= now
    && (forall b | b in now - seen :: Reaches(cfg, bus, b))
    && (forall b, c | b in now - seen - {bus} && Edge(cfg, b, c) :: c in now)
    && (forall p | p in Before(cfg, bus, device, fn) && Bridge(cfg, p) :: Secondary(cfg, bus, p.device) in now)
    && Lists(cfg, devices, Known(cfg, bus, seen, now, places, device, fn))
  }

  class Pci {
    const cfg: Config
    const scannedBusses: Bitmask256
    var devices: seq<PciDevice>

    ghost predicate Valid() {
      scannedBusses.Valid()
    }

    constructor (cfg: Config)
      ensures Valid() && this.cfg == cfg
    {
      this.cfg := cfg;
      scannedBusses := new Bitmask256();
      devices := [];
    }

    ghost function Scanned(): set<bv8>
      requires Valid()
      reads scannedBusses.mask
    {
      scannedBusses.Bits()
    }

    ghost function Unscanned(): set<bv8>
      requires Valid()
      reads scannedBusses.mask
    {
      ALL - Scanned()
    }

    method ScanBus(bus: bv8, ghost places: iset<Place>)
      requires Valid() && bus !in Scanned() && Lists(cfg, devices, places)
      requires forall p | p in places :: p.bus in Scanned()
      modifies this`devices, scannedBusses.mask
      ensures bus in Scanned() && Explored(cfg, bus, old(Scanned()), Scanned())
      ensures Lists(cfg, devices, places + On(cfg, Scanned() - old(Scanned())))
      decreases Unscanned(), 0
    {
      ghost var seen := Scanned();
      InAll(bus);
      scannedBusses.Set(bus, true);
      ScanBegins(cfg, bus, seen, devices, places);
      for device := 0 to 32
        invariant Scanning(cfg, bus, seen, Scanned(), devices, places, device, 0)
      {
        ScanDevice(bus, device, seen, places);
      }
      ScanEnds(cfg, bus, seen, Scanned(), devices, places);
    }

    /** One device of the loop in scan_bus: all eight functions of a multi-function device, else the first. */
    method ScanDevice(bus: bv8, device: nat, ghost seen: set<bv8>, ghost places: iset<Place>)
      requires Valid() && device < 32 && bus !in seen
      requires Scanning(cfg, bus, seen, Scanned(), devices, places, device, 0)
      requires forall p | p in places :: p.bus in seen
      modifies this`devices, scannedBusses.mask
      ensures Scanning(cfg, bus, seen, Scanned(), devices, places, device + 1, 0)
      ensures old(Scanned()) <= Scanned()
      decreases Unscanned(), 3
    {
      var id := cfg(bus, device, 0, 0x00);
      if id & 0xffff == 0xffff {
        NothingThere(cfg, bus, seen, Scanned(), devices, places, device, 0);
        return;
      }
      var headerType := (cfg(bus, device, 0, 0x0c) >> 16) & 0xff;
      if headerType & 0x80 != 0 {
        for fn := 0 to 8
          invariant Scanning(cfg, bus, seen, Scanned(), devices, places, device, fn)
          invariant old(Scanned()) <= Scanned()
        {
          ScanFunction(bus, device, fn, seen, places);
        }
        NothingThere(cfg, bus, seen, Scanned(), devices, places, device, 8);
      } else {
        ScanFunction(bus, device, 0, seen, places);
        NothingThere(cfg, bus, seen, Scanned(), devices, places, device, 1);
      }
    }

    method ScanFunction(bus: bv8, device: nat, fn: nat, ghost seen: set<bv8>, ghost places: iset<Place>)
      requires Valid() && device < 32 && fn < 8 && bus !in seen
      requires Present(cfg, Place(bus, device, 0)) && (fn == 0 || MultiFunction(cfg, bus, device))
      requires Scanning(cfg, bus, seen, Scanned(), devices, places, device, fn)
      requires forall p | p in places :: p.bus in seen
      modifies this`devices, scannedBusses.mask
      ensures Scanning(cfg, bus, seen, Scanned(), devices, places, device, fn + 1)
      ensures old(Scanned()) <= Scanned()
      decreases Unscanned(), 2
    {
      var id := cfg(bus, device, fn, 0x00);
      assert Present(cfg, Place(bus, device, fn)) == (id & 0xffff != 0xffff);
      if id & 0xffff == 0xffff {
        NotPresent(cfg, bus, seen, Scanned(), devices, places, device, fn);
        return;
      }
      var fullClass := cfg(bus, device, fn, 0x08);
      if fullClass >> 16 == 0x0604 {
        EdgeHere(cfg, bus, device, fn);
        ScanBehind(bus, device, fn, seen, places);
      }
      DeviceFound(cfg, bus, seen, Scanned(), devices, places, device, fn);
      devices := devices + [PciDevice(id, fullClass, Place(bus, device, fn))];
    }

    /** What is behind a bridge, unless it was scanned before. */
    method ScanBehind(bus: bv8, device: nat, fn: nat, ghost seen: set<bv8>, ghost places: iset<Place>)
      requires Valid() && bus !in seen && Edge(cfg, bus, Secondary(cfg, bus, device))
      requires Scanning(cfg, bus, seen, Scanned(), devices, places, device, fn)
      requires forall p | p in places :: p.bus in seen
      modifies this`devices, scannedBusses.mask
      ensures Scanning(cfg, bus, seen, Scanned(), devices, places, device, fn)
      ensures old(Scanned()) <= Scanned() && Secondary(cfg, bus, device) in Scanned()
      decreases Unscanned(), 1
    {
      var secondaryBus := ((cfg(bus, device, 0, 0x18) >> 8) & 0xff) as bv8;
      var scanned := scannedBusses.Get(secondaryBus);
      if !scanned {
        ghost var now := Scanned();
        ghost var known := Known(cfg, bus, seen, now, places, device, fn);
        ScanBus(secondaryBus, known);
        ScanReturned(cfg, bus, seen, now, Scanned(), devices, places, device, fn, secondaryBus);
      }
    }

    /** A root that was not reached from an earlier one. */
    method ScanRoot(bus: bv8)
      requires Valid() && Root(cfg, bus) && Walked(cfg, Scanned(), devices)
      modifies this`devices, scannedBusses.mask
      ensures Walked(cfg, Scanned(), devices) && old(Scanned()) + {bus} <= Scanned()
    {
      var scanned := scannedBusses.Get(bus);
      if !scanned {
        ghost var seen := Scanned();
        ScanBus(bus, On(cfg, seen));
        WalkedOn(cfg, seen, Scanned(), devices, bus);
      }
    }

    /** The root loop of _on_start. It finds exactly the buses reachable from the roots, and lists
        each of their functions once. */
    method Start()
      requires Valid()
      modifies this`devices, scannedBusses.mask
      ensures forall b :: b in Scanned() <==> ReachedFromRoot(cfg, b)
      ensures Lists(cfg, devices, On(cfg, Scanned()))
      ensures forall i | 0 <= i < |devices| ::
        var p := devices[i].place;
        devices[i].id == cfg(p.bus, p.device, p.fn, 0x00) && devices[i].fullClass == cfg(p.bus, p.device, p.fn, 0x08)
    {
      devices := [];
      scannedBusses.Clear();
      assert On(cfg, Scanned()) == iset{};
      // bit 7 of the register itself, where the function scan first shifts down to the header type
      var baseHeaderType := cfg(0, 0, 0, 0x0c);
      if baseHeaderType & 0x80 != 0 {
        for fn := 0 to 8
          invariant Walked(cfg, Scanned(), devices)
          invariant forall f: nat, bus | f < fn && RootFunction(cfg, f, bus) :: bus in Scanned()
        {
          var id := cfg(0, 0, fn, 0x00);
          if id & 0xffff == 0xffff {
            continue;
          }
          assert RootFunction(cfg, fn, fn as bv8);
          ScanRoot(fn as bv8);
        }
      } else {
        ScanBus(0, iset{});
        WalkedOn(cfg, {}, Scanned(), devices, 0);
      }
      WalkEnds(cfg, Scanned(), devices);
    }
  }

  predicate RootFunction(cfg: Config, fn: nat, bus: bv8) {
    fn < 8 && fn as bv8 == bus && Present(cfg, Place(0, 0, fn))
  }

  /** The bus has the number of a function of device 0 on bus 0. */
  ghost predicate NamedByFunction(cfg: Config, bus: bv8) {
    exists f: nat :: RootFunction(cfg, f, bus)
  }

  /** The buses the walk starts from: the numbers of the functions of device 0 on bus 0, if bit 7 is
      set, and otherwise bus 0. */
  ghost predicate Root(cfg: Config, bus: bv8) {
    if cfg(0, 0, 0, 0x0c) & 0x80 != 0 then NamedByFunction(cfg, bus) else bus == 0
  }

  /** The roots if the test were, as for every other device, on the header type of device 0. */
  ghost predicate IntendedRoot(cfg: Config, bus: bv8) {
    if MultiFunction(cfg, 0, 0) then NamedByFunction(cfg, bus) else bus == 0
  }

  /** Function 0 is the only one of device 0 on bus 0. */
  predicate OnlyFunction0(cfg: Config) {
    Present(cfg, Place(0, 0, 0)) && forall f | 0 < f < 8 :: !Present(cfg, Place(0, 0, f))
  }

  /** The secondary bus number of a bridge that is not function 0 is read from function 0 all the same. */
  lemma BridgeReadsFunction0(cfg: Config, bus: bv8, device: nat, fn: nat)
    requires cfg(bus, device, 0, 0x18) == 0 && cfg(bus, device, fn, 0x18) == 0x0000_0500
    ensures Secondary(cfg, bus, device) == 0 && ((cfg(bus, device, fn, 0x18) >> 8) & 0xff) as bv8 == 5
  {
  }

  lemma NumberOfBus(f: nat)
    requires f < 8
    ensures f as bv8 == 0 <==> f == 0
  {
    assert (f as bv8) as int == f;
  }

  /** The functions of device 0 name bus 0 alone exactly if function 0 is the only one. */
  lemma FunctionsNameBus0Iff(cfg: Config)
    ensures (forall bus :: NamedByFunction(cfg, bus) <==> bus == 0) <==> OnlyFunction0(cfg)
  {
    if OnlyFunction0(cfg) {
      assert RootFunction(cfg, 0, 0);
    } else if Present(cfg, Place(0, 0, 0)) {
      var f: nat :| 0 < f < 8 && Present(cfg, Place(0, 0, f));
      NumberOfBus(f);
      assert RootFunction(cfg, f, f as bv8) && NamedByFunction(cfg, f as bv8);
    } else {
      forall f: nat ensures !RootFunction(cfg, f, 0) {
        if f < 8 {
          NumberOfBus(f);
        }
      }
      assert !NamedByFunction(cfg, 0);
    }
  }

  /** The test of the root loop is on the cache line size, not on the header type. The roots are the
      intended ones exactly if both tests agree, or if it makes no difference. */
  lemma RootsAreIntendedIff(cfg: Config)
    ensures (forall bus :: Root(cfg, bus) <==> IntendedRoot(cfg, bus)) <==>
      ((cfg(0, 0, 0, 0x0c) & 0x80 != 0) == MultiFunction(cfg, 0, 0) || OnlyFunction0(cfg))
  {
    FunctionsNameBus0Iff(cfg);
    if (cfg(0, 0, 0, 0x0c) & 0x80 != 0) != MultiFunction(cfg, 0, 0) {
      if OnlyFunction0(cfg) {
        assert forall bus :: NamedByFunction(cfg, bus) <==> bus == 0;
      } else {
        var bus :| !(NamedByFunction(cfg, bus) <==> bus == 0);
        assert !(Root(cfg, bus) <==> IntendedRoot(cfg, bus));
      }
    }
  }

  /** A host that only its header type calls multi-function is walked from bus 0 alone, and if it has
      function 1, bus 1 is not the root that it should be. */
  lemma RootTestReadsAnotherByte(cfg: Config)
    requires cfg(0, 0, 0, 0x0c) == 0x0080_0000 && Present(cfg, Place(0, 0, 1))
    ensures MultiFunction(cfg, 0, 0) && forall bus :: Root(cfg, bus) <==> bus == 0
    ensures IntendedRoot(cfg, 1) && !Root(cfg, 1)
  {
    assert RootFunction(cfg, 1, 1);
  }

  ghost predicate ReachedFromRoot(cfg: Config, bus: bv8) {
    exists root :: Root(cfg, root) && Reaches(cfg, root, bus)
  }

  ghost predicate Walked(cfg: Config, scanned: set<bv8>, devices: seq<PciDevice>) {
    Closed(cfg, scanned) && Lists(cfg, devices, On(cfg, scanned)) && forall b | b in scanned :: ReachedFromRoot(cfg, b)
  }

  lemma WalkedOn(cfg: Config, seen: set<bv8>, now: set<bv8>, devices: seq<PciDevice>, root: bv8)
    requires Closed(cfg, seen) && (forall b | b in seen :: ReachedFromRoot(cfg, b))
    requires Root(cfg, root) && Explored(cfg, root, seen, now)
      && Lists(cfg, devices, On(cfg, seen) + On(cfg, now - seen))
    ensures Walked(cfg, now, devices)
  {
  }

  lemma WalkEnds(cfg: Config, scanned: set<bv8>, devices: seq<PciDevice>)
    requires Walked(cfg, scanned, devices) && forall root | Root(cfg, root) :: root in scanned
    ensures forall b :: b in scanned <==> ReachedFromRoot(cfg, b)
  {
    forall b | ReachedFromRoot(cfg, b) ensures b in scanned {
      var root :| Root(cfg, root) && Reaches(cfg, root, b);
      var path :| Path(cfg, path, root, b);
      ClosedHoldsPath(cfg, scanned, path, root, b);
    }
  }

  lemma ScanBegins(cfg: Config, bus: bv8, seen: set<bv8>, devices: seq<PciDevice>, places: iset<Place>)
    requires bus !in seen && Lists(cfg, devices, places)
    ensures Scanning(cfg, bus, seen, seen + {bus}, devices, places, 0, 0)
  {
    ReachesItself(cfg, bus);
    assert places + On(cfg, seen + {bus} - seen - {bus}) + Before(cfg, bus, 0, 0) == places;
  }

  /** The rest of this device holds no listed function. */
  lemma NothingThere(cfg: Config, bus: bv8, seen: set<bv8>, now: set<bv8>, devices: seq<PciDevice>,
                     places: iset<Place>, device: nat, fn: nat)
    requires Scanning(cfg, bus, seen, now, devices, places, device, fn)
    requires forall f | fn <= f < 8 :: !Listed(cfg, Place(bus, device, f))
    ensures Scanning(cfg, bus, seen, now, devices, places, device + 1, 0)
  {
  }

  lemma NotPresent(cfg: Config, bus: bv8, seen: set<bv8>, now: set<bv8>, devices: seq<PciDevice>,
                   places: iset<Place>, device: nat, fn: nat)
    requires Scanning(cfg, bus, seen, now, devices, places, device, fn) && !Listed(cfg, Place(bus, device, fn))
    ensures Scanning(cfg, bus, seen, now, devices, places, device, fn + 1)
  {
  }

  lemma ScanEnds(cfg: Config, bus: bv8, seen: set<bv8>, now: set<bv8>, devices: seq<PciDevice>, places: iset<Place>)
    requires bus !in seen && Scanning(cfg, bus, seen, now, devices, places, 32, 0)
    ensures bus in now && Explored(cfg, bus, seen, now) && Lists(cfg, devices, places + On(cfg, now - seen))
  {
  }

  lemma ScanReturned(cfg: Config, bus: bv8, seen: set<bv8>, now: set<bv8>, later: set<bv8>, devices: seq<PciDevice>,
                     places: iset<Place>, device: nat, fn: nat, secondary: bv8)
    requires bus !in seen && bus in now && seen <= now && secondary !in now
    requires forall b | b in now - seen :: Reaches(cfg, bus, b)
    requires forall b, c | b in now - seen - {bus} && Edge(cfg, b, c) :: c in now
    requires forall p | p in Before(cfg, bus, device, fn) && Bridge(cfg, p) :: Secondary(cfg, bus, p.device) in now
    requires Edge(cfg, bus, secondary) && Explored(cfg, secondary, now, later)
    requires Lists(cfg, devices, Known(cfg, bus, seen, now, places, device, fn) + On(cfg, later - now))
    ensures Scanning(cfg, bus, seen, later, devices, places, device, fn)
  {
    forall b | b in later - now ensures Reaches(cfg, bus, b) {
      ReachesThrough(cfg, bus, secondary, b);
    }
    assert Known(cfg, bus, seen, now, places, device, fn) + On(cfg, later - now)
      == Known(cfg, bus, seen, later, places, device, fn);
  }

  lemma DeviceFound(cfg: Config, bus: bv8, seen: set<bv8>, now: set<bv8>, devices: seq<PciDevice>,
                    places: iset<Place>, device: nat, fn: nat)
    requires bus !in seen && Scanning(cfg, bus, seen, now, devices, places, device, fn)
    requires forall p | p in places :: p.bus in seen
    requires Listed(cfg, Place(bus, device, fn))
    requires Bridge(cfg, Place(bus, device, fn)) ==> Secondary(cfg, bus, device) in now
    ensures Scanning(cfg, bus, seen, now, devices + [DeviceAt(cfg, Place(bus, device, fn))], places, device, fn + 1)
  {
    var p := Place(bus, device, fn);
    var known := places + On(cfg, now - seen - {bus}) + Before(cfg, bus, device, fn);
    assert p !in known;
    ListsOneMore(cfg, devices, known, p);
    forall q ensures q in Before(cfg, bus, device, fn + 1) <==> q in Before(cfg, bus, device, fn) || q == p {
      assert q == Place(q.bus, q.device, q.fn);
    }
    assert known + iset{p} == places + On(cfg, now - seen - {bus}) + Before(cfg, bus, device, fn + 1);
  }
}
