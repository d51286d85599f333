/** The Deluge dissemination protocol: the state of a node and what each of its message
    handlers and timers makes of it. */
module Deluge {
  import opened Common

  const S_PKT: nat := 64
  const N_PKT: nat := 4
  const CONST_K: nat := 1
  const CONST_LAMBDA: nat := 2

  type Byte = b: nat | b < 256

  type Payload = s: seq<Byte> | |s| == S_PKT witness seq(S_PKT, i => 0)
  type PacketNo = k: nat | k < N_PKT
  function Zeros(): Payload {
    seq(S_PKT, i => 0)
  }

  type PageData = s: seq<Payload> | |s| == N_PKT witness [Zeros(), Zeros(), Zeros(), Zeros()]

  function Blank(): PageData {
    [Zeros(), Zeros(), Zeros(), Zeros()]
  }

  const ALL_PACKETS: set<PacketNo> := {0, 1, 2, 3}

  /** A set of packets in an 8-bit field; bits without a packet are sent but ignored. */
  type PacketBits = set<nat>

  const ALL_BITS: PacketBits := {0, 1, 2, 3, 4, 5, 6, 7}

  datatype Msg =
    | Summary(version: nat, highest: nat)
    | Request(version: nat, page: nat, packets: PacketBits)
    | Packet(version: nat, page: nat, number: PacketNo, crc: nat, payload: Payload)
    | Profile(version: nat, versions: seq<nat>)

  datatype Page = Page(version: nat, packets: set<PacketNo>, complete: bool)

  datatype Mode = MAINTAIN | RX | TX

  /** `current_object`, with the file behind it. */
  datatype Object = Object(
    version: nat, updateVersion: nat, pages: seq<Page>, rxPage: nat, buffer: PageData, file: seq<PageData>,
    txPage: int, txSet: PacketBits, requests: nat)
  {
    function Highest(): nat {
      FirstMissing(pages, 0)
    }
  }

  /** The timers that are running; `ctimer_expired` is the negation. */
  datatype Timers = Timers(rx: bool, tx: bool, summary: bool, profile: bool)

  datatype State = State(
    obj: Object, timers: Timers, mode: Mode, recvAdv: nat, broadcastProfile: bool, inconsistent: bool)

  /** The first page from `i` on that is not complete. */
  function FirstMissing(pages: seq<Page>, i: nat): (h: nat)
    requires i <= |pages|
    ensures i <= h <= |pages| && (h < |pages| ==> !pages[h].complete)
    ensures forall j :: i <= j < h ==> pages[j].complete
    decreases |pages| - i
  {
    if i < |pages| && pages[i].complete then FirstMissing(pages, i + 1) else i
  }

  lemma FirstMissingIs(pages: seq<Page>, h: nat)
    requires h <= |pages| && (h < |pages| ==> !pages[h].complete)
    requires forall j :: 0 <= j < h ==> pages[j].complete
    ensures FirstMissing(pages, 0) == h
  {
  }

  /** `read_page`; what the file does not have yet reads as blank. */
  function ReadPage(file: seq<PageData>, page: nat): PageData {
    if page < |file| then file[page] else Blank()
  }

  /** `write_page` */
  function WritePage(file: seq<PageData>, page: nat, data: PageData): (r: seq<PageData>)
    ensures page < |r| && r[page] == data
    ensures forall p :: 0 <= p < |file| && p != page ==> p < |r| && r[p] == file[p]
  {
    if page < |file| then file[page := data]
    else file + seq(page - |file|, i => Blank()) + [data]
  }

  /** `transition`: the timers of the mode that is left are stopped. */
  function Transition(s: State, mode: Mode): (r: State)
    ensures r == s.(mode := mode, timers := r.timers)
    ensures r.timers.rx == (s.timers.rx && (s.mode != RX || mode == RX))
    ensures r.timers.tx == (s.timers.tx && (s.mode != TX || mode == TX))
    ensures r.timers.summary == (s.timers.summary && (s.mode != MAINTAIN || mode == MAINTAIN))
    ensures r.timers.profile == (s.timers.profile && (s.mode != MAINTAIN || mode == MAINTAIN))
  {
    if mode == s.mode then s else
    var timers :=
      match s.mode
      case MAINTAIN => s.timers.(summary := false, profile := false)
      case RX => s.timers.(rx := false)
      case TX => s.timers.(tx := false);
    s.(mode := mode, timers := timers)
  }

  function ArmRx(s: State): State {
    s.(timers := s.timers.(rx := true))
  }

  function ArmTx(s: State): State {
    s.(timers := s.timers.(tx := true))
  }

  /** `init_object`: a complete file. */
  function Fresh(version: nat, file: seq<PageData>, buffer: PageData): State {
    State(Object(version, version, seq(|file|, i => Page(version, ALL_PACKETS, true)), 0, buffer, file, 0, {}, 0),
          Timers(false, false, false, false), MAINTAIN, 0, false, false)
  }

  /** A round of `deluge_process` begins. */
  function NewRound(s: State): State {
    s.(inconsistent := false, recvAdv := 0, timers := s.timers.(summary := true, profile := true))
  }

  /** `send_request`, the callback of the receive timer. When all pages are complete it
      reads beyond the page table; the stray values are what it finds there. */
  function RequestOf(o: Object, strayVersion: nat, strayPackets: PacketBits): Msg {
    if o.rxPage < |o.pages| then
      Request(o.pages[o.rxPage].version, o.rxPage, set k: nat | k in ALL_BITS && k !in o.pages[o.rxPage].packets)
    else Request(strayVersion, o.rxPage, strayPackets)
  }

  function SendRequest(s: State): State {
    if s.obj.requests + 1 == CONST_LAMBDA
    then Transition(s.(obj := s.obj.(requests := 0), timers := s.timers.(rx := false)), MAINTAIN)
    else ArmRx(s.(obj := s.obj.(requests := s.obj.requests + 1)))
  }

  /** `advertise_summary` */
  function AdvertiseSummary(s: State): (State, set<Msg>) {
    (s.(timers := s.timers.(summary := false)),
     if s.recvAdv >= CONST_K then {} else {Summary(s.obj.updateVersion, s.obj.Highest())})
  }

  /** `handle_summary`. `suppressed` is the outcome of the comparison of page times with
      the clock. */
  function HandleSummary(s: State, version: nat, highest: nat, suppressed: bool): (r: State)
    ensures r.obj == s.obj
    ensures r.timers.rx && !s.timers.rx ==> version == s.obj.updateVersion && highest > s.obj.Highest()
  {
    var h := s.obj.Highest();
    var s1 := if version != s.obj.version || highest != h then s.(inconsistent := true)
              else s.(recvAdv := s.recvAdv + 1);
    var s2 := if version < s.obj.version then s1.(broadcastProfile := true) else s1;
    if version == s.obj.updateVersion && h < highest <= |s.obj.pages| && !suppressed
    then ArmRx(Transition(s2, RX))
    else s2
  }

  /** `send_page`: the packets asked for, with the page's version and the file's bytes. */
  function PagePackets(o: Object, page: nat, crc: Payload -> nat): set<Msg>
    requires page < |o.pages|
  {
    var data := ReadPage(o.file, page);
    set k: PacketNo | k in ALL_PACKETS && k in o.txSet :: Packet(o.pages[page].version, page, k, crc(data[k]), data[k])
  }

  /** `tx_callback` */
  function TxCallback(s: State, crc: Payload -> nat): (State, set<Msg>) {
    var fired := s.(timers := s.timers.(tx := false));
    if 0 <= s.obj.txPage < |s.obj.pages| && s.obj.txSet != {} then
      (Transition(fired.(obj := s.obj.(txSet := {}, txPage := -1)), MAINTAIN), PagePackets(s.obj, s.obj.txPage, crc))
    else (fired, {})
  }

  /** `current_tx_page` has eight bits and a sign. */
  function Int8(n: nat): int {
    if n % 256 < 128 then n % 256 else n % 256 - 256
  }

  /** `handle_request` */
  function HandleRequest(s: State, version: nat, page: nat, packets: PacketBits): (r: State)
    ensures r.obj == s.obj.(txPage := r.obj.txPage, txSet := r.obj.txSet)
    ensures page >= |s.obj.pages| || version != s.obj.version ==> r.obj == s.obj
    ensures r.timers.rx ==> s.timers.rx
  {
    var o := s.obj;
    if page >= |o.pages| then s else
    if version != o.version then s.(inconsistent := true) else
    if page > o.Highest() then s else
    var asked := if page == o.txPage then o.(txSet := o.txSet + packets)
                 else o.(txPage := Int8(page), txSet := packets);
    ArmTx(Transition(s.(obj := asked), TX))
  }

  /** Whether `handle_packet` puts the payload of a packet into the assembly buffer. */
  predicate Wanted(o: Object, m: Msg)
    requires m.Packet?
  {
    && m.page == o.rxPage < |o.pages|
    && m.version == o.pages[m.page].version && !o.pages[m.page].complete
  }

  /** The object after a packet that is wanted. The payload goes into the assembly buffer
      before its checksum is looked at. */
  function TakePacket(o: Object, m: Msg, crc: Payload -> nat): Object
    requires m.Packet? && Wanted(o, m)
  {
    var buffer := o.buffer[m.number := m.payload];
    if m.crc != crc(m.payload) then o.(buffer := buffer) else
    var held := o.pages[m.page].packets + {m.number};
    if held != ALL_PACKETS then o.(buffer := buffer, pages := o.pages[m.page := o.pages[m.page].(packets := held)])
    else o.(buffer := buffer, pages := o.pages[m.page := Page(m.version, held, true)],
            file := WritePage(o.file, m.page, buffer), rxPage := o.rxPage + 1,
            version := if m.page == |o.pages| - 1 then o.updateVersion else o.version)
  }

  /** `handle_packet` */
  function HandlePacket(s: State, m: Msg, crc: Payload -> nat): (r: State)
    requires m.Packet?
    ensures r.obj == if Wanted(s.obj, m) then TakePacket(s.obj, m, crc) else s.obj
    ensures r.timers.rx && !s.timers.rx ==> Wanted(s.obj, m)
  {
    if m.page != s.obj.rxPage || m.page >= |s.obj.pages| then s else
    var s1 := if m.version != s.obj.version then s.(inconsistent := true) else s;
    if !Wanted(s.obj, m) then s1 else
    var s2 := s1.(obj := TakePacket(s.obj, m, crc));
    if s2.obj.rxPage == s.obj.rxPage then s2
    else Transition(if s2.obj.rxPage < |s2.obj.pages| then ArmRx(s2) else s2, MAINTAIN)
  }

  /** `send_profile` */
  function SendProfile(s: State): (State, set<Msg>) {
    var fired := s.(timers := s.timers.(profile := false));
    if s.broadcastProfile && s.recvAdv < CONST_K
    then (fired.(broadcastProfile := false), {Profile(s.obj.version, Versions(s.obj.pages))})
    else (fired, {})
  }

  function Versions(pages: seq<Page>): seq<nat> {
    seq(|pages|, i requires 0 <= i < |pages| => pages[i].version)
  }

  /** A page after a profile: dropped if the profile has a newer version of it. */
  function Profiled(page: Page, version: nat): Page {
    if version > page.version then Page(version, {}, false) else page
  }

  function ProfiledPages(pages: seq<Page>, versions: seq<nat>): seq<Page> {
    seq(|versions|, i requires 0 <= i < |versions| =>
      if i < |pages| then Profiled(pages[i], versions[i]) else Page(0, {}, false))
  }

  /** `handle_profile` */
  function HandleProfile(s: State, version: nat, versions: seq<nat>): (r: State)
    ensures version <= s.obj.updateVersion ==> r == s
    ensures version > s.obj.updateVersion ==>
              var pages := ProfiledPages(s.obj.pages, versions);
              r.obj == s.obj.(txSet := {}, pages := pages, rxPage := FirstMissing(pages, 0), updateVersion := version)
  {
    if version <= s.obj.updateVersion then s else
    var pages := ProfiledPages(s.obj.pages, versions);
    var o := s.obj.(txSet := {}, pages := pages, rxPage := FirstMissing(pages, 0), updateVersion := version);
    ArmRx(Transition(s.(obj := o), RX))
  }

  // ----- the dispatcher -----

  /** The bytes of a profile before its version vector. */
  const PROFILE_HEADER: nat := 4

  /** PACKETBUF_SIZE. All messages but profiles fit. */
  type BufferSize = n: nat | n >= 72 witness 128

  /** The checksum function and the packet buffer of the nodes. */
  datatype Host = Host(crc: Payload -> nat, room: BufferSize)

  /** The length of a profile as it is sent: it is cut to the packet buffer. */
  function ProfileLength(versions: seq<nat>, room: BufferSize): nat {
    Min(room, PROFILE_HEADER + |versions|)
  }

  /** The test of the dispatcher on the length of a profile: it multiplies the number of pages
      by the first version and not by the size of a version. Without pages the product is zero,
      whatever the byte behind the message is. */
  predicate LongEnough(length: nat, versions: seq<nat>) {
    length >= PROFILE_HEADER + if versions == [] then 0 else |versions| * versions[0]
  }

  /** `command_dispatcher`; messages of the other kinds have a fixed length. */
  function Receive(s: State, m: Msg, suppressed: bool, host: Host): State {
    match m
    case Summary(v, h) => HandleSummary(s, v, h, suppressed)
    case Request(v, p, k) => HandleRequest(s, v, p, k)
    case Packet(_, _, _, _, _) => HandlePacket(s, m, host.crc)
    case Profile(v, vs) => if LongEnough(ProfileLength(vs, host.room), vs) then HandleProfile(s, v, vs) else s
  }

  /** The profiles that pass the test. */
  predicate Passes(versions: seq<nat>, room: BufferSize) {
    versions == [] || versions[0] == 0 || (versions[0] == 1 && PROFILE_HEADER + |versions| <= room)
  }

  /** A profile as it is sent passes the test iff the version of its first page is 0, or it is 1 and
      the profile has not been cut. */
  lemma LongEnoughIff(versions: seq<nat>, room: BufferSize)
    ensures LongEnough(ProfileLength(versions, room), versions) <==> Passes(versions, room)
  {
    if versions != [] && versions[0] >= 2 {
      assert |versions| * versions[0] >= |versions| * 2;
    }
  }

  /** A profile starts an update iff it is newer and passes the test. */
  lemma StartsUpdateIff(s: State, version: nat, versions: seq<nat>, suppressed: bool, host: Host)
    ensures Receive(s, Profile(version, versions), suppressed, host).obj.updateVersion
            == if version > s.obj.updateVersion && Passes(versions, host.room) then version else s.obj.updateVersion
  {
    LongEnoughIff(versions, host.room);
  }
}
