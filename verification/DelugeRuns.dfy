/** Runs of Deluge: any number of nodes, and a network that loses, duplicates, delays,
    reorders and damages messages and lets anybody receive them. */
module DelugeRuns {
  import opened Deluge

  /** `net` holds every message ever sent: each can still be delivered, any number of
      times, to any node. */
  datatype World = World(nodes: seq<State>, net: set<Msg>)

  datatype Event =
    | Round
    | SummaryTimer
    | ProfileTimer
    | RxTimer(strayVersion: nat, strayPackets: PacketBits)
    | TxTimer
    | Deliver(m: Msg, suppressed: bool)
    | Damage(m: Msg, payload: Payload)
  {
    predicate BringsPacket() {
      (Deliver? || Damage?) && m.Packet?
    }

    /** The packet as it arrives. */
    function Arriving(): (r: Msg)
      requires BringsPacket()
      ensures r.Packet?
    {
      if Damage? then m.(payload := payload) else m
    }
  }

  /** A packet can be damaged such that its checksum shows it. */
  predicate Enabled(s: State, net: set<Msg>, e: Event, host: Host) {
    match e
    case Round => true
    case SummaryTimer => s.timers.summary
    case ProfileTimer => s.timers.profile
    case RxTimer(_, _) => s.timers.rx
    case TxTimer => s.timers.tx
    case Deliver(m, _) => m in net
    case Damage(m, payload) => m in net && m.Packet? && host.crc(payload) != m.crc
  }

  /** What an event makes of a node, and what the node sends. */
  function Act(s: State, e: Event, host: Host): (State, set<Msg>) {
    match e
    case Round => (NewRound(s), {})
    case SummaryTimer => AdvertiseSummary(s)
    case ProfileTimer => SendProfile(s)
    case RxTimer(v, k) => (SendRequest(s), {RequestOf(s.obj, v, k)})
    case TxTimer => TxCallback(s, host.crc)
    case Deliver(m, suppressed) => (Receive(s, m, suppressed, host), {})
    case Damage(m, payload) => if m.Packet? then (Receive(s, e.Arriving(), true, host), {}) else (s, {})
  }

  predicate Happens(w: World, at: nat, e: Event, host: Host) {
    at < |w.nodes| && Enabled(w.nodes[at], w.net, e, host)
  }

  /** One event at one node; an event that cannot happen changes nothing. */
  function Step(w: World, at: nat, e: Event, host: Host): World {
    if Happens(w, at, e, host) then
      var (s, sent) := Act(w.nodes[at], e, host);
      World(w.nodes[at := s], w.net + sent)
    else w
  }

  function After(w: World, run: seq<(nat, Event)>, host: Host): World {
    if run == [] then w else
    var last := run[|run| - 1];
    Step(After(w, run[..|run| - 1], host), last.0, last.1, host)
  }

  lemma {:induction false} NodesStay(w: World, run: seq<(nat, Event)>, host: Host)
    ensures |After(w, run, host).nodes| == |w.nodes|
  {
    if run != [] {
      NodesStay(w, run[..|run| - 1], host);
    }
  }

  // ----- which packets arrived damaged -----

  /** The event brings the node a packet that it puts into its assembly buffer. */
  predicate TakesPacket(o: Object, e: Event) {
    e.BringsPacket() && Wanted(o, e.Arriving())
  }

  predicate Intact(m: Msg, host: Host)
    requires m.Packet?
  {
    m.crc == host.crc(m.payload)
  }

  /** The event completes a page of the node. */
  predicate Completes(o: Object, e: Event, host: Host) {
    TakesPacket(o, e) && var m := e.Arriving();
    Intact(m, host) && o.pages[m.page].packets + {m.number} == ALL_PACKETS
  }

  function SpoiltBy(spoilt: set<PacketNo>, o: Object, e: Event, host: Host): set<PacketNo> {
    if !TakesPacket(o, e) then spoilt
    else if Intact(e.Arriving(), host) then spoilt - {e.Arriving().number}
    else spoilt + {e.Arriving().number}
  }

  /** The packet numbers for which the last wanted packet of node `i` had a wrong checksum. */
  function Spoilt(w: World, run: seq<(nat, Event)>, i: nat, host: Host): set<PacketNo> {
    if run == [] then {} else
    var before, last := After(w, run[..|run| - 1], host), run[|run| - 1];
    var spoilt := Spoilt(w, run[..|run| - 1], i, host);
    if last.0 != i || !Happens(before, i, last.1, host) then spoilt
    else SpoiltBy(spoilt, before.nodes[i].obj, last.1, host)
  }

  /** Whenever a node completed a page, the last wanted packet of every number had the right
      checksum. */
  predicate Clean(w: World, run: seq<(nat, Event)>, host: Host) {
    run == [] ||
    var before, last := After(w, run[..|run| - 1], host), run[|run| - 1];
    && Clean(w, run[..|run| - 1], host)
    && (Happens(before, last.0, last.1, host) && Completes(before.nodes[last.0].obj, last.1, host) ==>
          Spoilt(w, run, last.0, host) == {})
  }

  /** An event makes the node take a packet, starts an update, or changes only what is sent. */
  lemma Effect(s: State, e: Event, host: Host)
    ensures var o, t := s.obj, Act(s, e, host).0.obj;
            if TakesPacket(o, e) then t == TakePacket(o, e.Arriving(), host.crc) && t.updateVersion == o.updateVersion
            else if t.updateVersion != o.updateVersion then 
              e.Deliver? && e.m.Profile? && t.updateVersion == e.m.version > o.updateVersion && t.version == o.version
            else t == o.(txPage := t.txPage, txSet := t.txSet, requests := t.requests)
  {
    if e.BringsPacket() {
      assert Act(s, e, host).0 == HandlePacket(s, e.Arriving(), host.crc);
    }
  }

  // ----- contents -----

  /** The bytes of each page of each version, for a number of pages. */
  datatype Contents = Contents(pages: nat, image: nat -> nat -> PageData)
  {
    function File(version: nat): seq<PageData> {
      seq(pages, p requires 0 <= p < pages => image(version)(p))
    }

    /** The node has the page of a version. */
    predicate HasPage(o: Object, version: nat, p: nat) {
      && p < |o.pages| && p < |o.file|
      && o.pages[p].version == version && o.pages[p].complete && o.file[p] == image(version)(p)
    }

    ghost predicate HasAll(o: Object, version: nat) {
      |o.pages| == pages && forall p :: 0 <= p < pages ==> HasPage(o, version, p)
    }

    /** A page that is complete at a version has the bytes of that version. */
    ghost predicate Agrees(o: Object) {
      forall p :: 0 <= p < |o.pages| && o.pages[p].complete ==> HasPage(o, o.pages[p].version, p)
    }
  }

  /** While an update is being received, the pages below the current one are complete; the
      version is that of the update only once every page is complete at it. */
  ghost predicate Upright(o: Object) {
    if o.version != o.updateVersion
    then o.rxPage == o.Highest() < |o.pages| && forall p :: 0 <= p < o.rxPage ==> o.pages[p].complete
    else forall p :: 0 <= p < |o.pages| ==> o.pages[p].complete && o.pages[p].version == o.version
  }

  /** Every node starts with a complete file, of the version that `versions` says. */
  function Initial(versions: seq<nat>, c: Contents, buffers: seq<PageData>): World
    requires |buffers| == |versions|
  {
    World(seq(|versions|, i requires 0 <= i < |versions| => Fresh(versions[i], c.File(versions[i]), buffers[i])), {})
  }
}
