/** A Deluge node as it is programmed: message handlers and timer callbacks that update the
    object, the page table and the assembly buffer in place. */
module DelugeNode {
  import opened Common
  import opened Deluge

  class Node {
    const host: Host
    var version: nat
    var updateVersion: nat
    var pages: array<Page>
    var rxPage: nat
    const currentPage: array<Payload>
    var file: seq<PageData>
    var txPage: int
    var txSet: PacketBits
    var requests: nat
    var mode: Mode
    var rxTimer: bool
    var txTimer: bool
    var summaryTimer: bool
    var profileTimer: bool
    var recvAdv: nat
    var broadcastProfile: bool
    var inconsistent: bool

    ghost predicate Valid() {
      currentPage.Length == N_PKT
    }

    ghost function Obj(): Object
      requires Valid()
      reads this, pages, currentPage
    {
      Object(version, updateVersion, pages[..], rxPage, currentPage[..], file, txPage, txSet, requests)
    }

    ghost function State(): State
      requires Valid()
      reads this, pages, currentPage
    {
      var timers := Timers(rxTimer, txTimer, summaryTimer, profileTimer);
      Deluge.State(Obj(), timers, mode, recvAdv, broadcastProfile, inconsistent)
    }

    /** `deluge_disseminate` and `init_object` */
    constructor (file: seq<PageData>, version: nat, host: Host)
      ensures Valid() && State() == Fresh(version, file, currentPage[..]) && this.host == host && fresh(pages)
              && fresh(currentPage)
    {
      this.host := host;
      this.version, updateVersion, this.file := version, version, file;
      pages := new Page[|file|](i => Page(version, ALL_PACKETS, true));
      currentPage := new Payload[N_PKT](i => Zeros());
      rxPage, txPage, txSet, requests := 0, 0, {}, 0;
      mode, recvAdv, broadcastProfile, inconsistent := MAINTAIN, 0, false, false;
      rxTimer, txTimer, summaryTimer, profileTimer := false, false, false, false;
    }

    method ChangeMode(next: Mode)
      requires Valid()
      modifies this`mode, this`rxTimer, this`txTimer, this`summaryTimer, this`profileTimer
      ensures State() == Transition(old(State()), next)
    {
      if next != mode {
        match mode {
          case MAINTAIN => summaryTimer, profileTimer := false, false;
          case RX => rxTimer := false;
          case TX => txTimer := false;
        }
        mode := next;
      }
    }

    method HighestAvailablePage() returns (i: nat)
      requires Valid()
      ensures i == Obj().Highest()
    {
      i := 0;
      while i < pages.Length
        invariant i <= pages.Length && forall j :: 0 <= j < i ==> pages[j].complete
      {
        if !pages[i].complete {
          break;
        }
        i := i + 1;
      }
      FirstMissingIs(pages[..], i);
    }

    /** A new round of the main loop. */
    method StartRound()
      requires Valid()
      modifies this
      ensures State() == NewRound(old(State()))
    {
      inconsistent, recvAdv := false, 0;
      summaryTimer, profileTimer := true, true;
    }

    /** The receive timer fires. */
    method OnRxTimer(strayVersion: nat, strayPackets: PacketBits) returns (sent: Msg)
      requires Valid()
      modifies this
      ensures State() == SendRequest(old(State())) && sent == RequestOf(old(Obj()), strayVersion, strayPackets)
    {
      rxTimer := false;
      if rxPage < pages.Length {
        sent := Request(pages[rxPage].version, rxPage, set k: nat | k in ALL_BITS && k !in pages[rxPage].packets);
      } else {
        sent := Request(strayVersion, rxPage, strayPackets);
      }
      requests := requests + 1;
      if requests == CONST_LAMBDA {
        requests := 0;
        ChangeMode(MAINTAIN);
      } else {
        rxTimer := true;
      }
    }

    /** The summary timer fires. */
    method OnSummaryTimer() returns (sent: set<Msg>)
      requires Valid()
      modifies this
      ensures (State(), sent) == AdvertiseSummary(old(State()))
    {
      summaryTimer := false;
      if recvAdv >= CONST_K {
        return {};
      }
      var highest := HighestAvailablePage();
      sent := {Summary(updateVersion, highest)};
    }

    method OnSummary(msgVersion: nat, msgHighest: nat, suppressed: bool)
      requires Valid()
      modifies this
      ensures State() == HandleSummary(old(State()), msgVersion, msgHighest, suppressed)
    {
      var highest := HighestAvailablePage();
      if msgVersion != version || msgHighest != highest {
        inconsistent := true;
      } else {
        recvAdv := recvAdv + 1;
      }
      if msgVersion < version {
        broadcastProfile := true;
      }
      if msgVersion == updateVersion && msgHighest > highest {
        if msgHighest > pages.Length || suppressed {
          return;
        }
        ChangeMode(RX);
        if !rxTimer {
          rxTimer := true;
        }
      }
    }

    method SendPage(page: nat) returns (sent: set<Msg>)
      requires Valid() && page < pages.Length
      modifies this`txSet
      ensures sent == PagePackets(old(Obj()), page, host.crc) && txSet == {}
    {
      var data := ReadPage(file, page);
      sent := {};
      for k := 0 to N_PKT
        invariant txSet == old(txSet)
        invariant sent == set n: PacketNo | n in ALL_PACKETS && n in txSet && n < k ::
                  Packet(pages[page].version, page, n, host.crc(data[n]), data[n])
      {
        if k in txSet {
          sent := sent + {Packet(pages[page].version, page, k, host.crc(data[k]), data[k])};
        }
      }
      txSet := {};
    }

    /** The transmit timer fires. */
    method OnTxTimer() returns (sent: set<Msg>)
      requires Valid()
      modifies this
      ensures (State(), sent) == TxCallback(old(State()), host.crc)
    {
      txTimer := false;
      sent := {};
      if 0 <= txPage < pages.Length && txSet != {} {
        sent := SendPage(txPage);
        txPage := -1;
        ChangeMode(MAINTAIN);
      }
    }

    method OnRequest(msgVersion: nat, page: nat, packets: PacketBits)
      requires Valid()
      modifies this
      ensures State() == HandleRequest(old(State()), msgVersion, page, packets)
    {
      if page >= pages.Length {
        return;
      }
      if msgVersion != version {
        inconsistent := true;
      }
      var highest := HighestAvailablePage();
      if msgVersion == version && page <= highest {
        if page == txPage {
          txSet := txSet + packets;
        } else {
          txPage, txSet := Int8(page), packets;
        }
        ChangeMode(TX);
        txTimer := true;
      }
    }

    /** The part of `handle_packet` for a packet that is wanted, up to the end of a page. */
    method StorePacket(m: Msg) returns (completed: bool)
      requires Valid() && m.Packet? && Wanted(Obj(), m)
      modifies this`file, this`rxPage, this`version, pages, currentPage
      ensures Obj() == TakePacket(old(Obj()), m, host.crc)
      ensures rxPage == old(rxPage) + if completed then 1 else 0
    {
      currentPage[m.number] := m.payload;
      if m.crc != host.crc(m.payload) {
        return false;
      }
      var page := pages[m.page];
      pages[m.page] := page.(packets := page.packets + {m.number});
      if pages[m.page].packets != ALL_PACKETS {
        return false;
      }
      file := WritePage(file, m.page, currentPage[..]);
      pages[m.page] := Page(m.version, ALL_PACKETS, true);
      rxPage := rxPage + 1;
      if m.page == pages.Length - 1 {
        version := updateVersion;
      }
      return true;
    }

    /** What follows when a page is complete. */
    method EndPage()
      requires Valid()
      modifies this`mode, this`rxTimer, this`txTimer, this`summaryTimer, this`profileTimer
      ensures var s := if old(rxPage) < old(pages).Length then ArmRx(old(State())) else old(State());
              State() == Transition(s, MAINTAIN)
    {
      if rxPage < pages.Length && !rxTimer {
        rxTimer := true;
      }
      ChangeMode(MAINTAIN);
    }

    method OnPacket(m: Msg)
      requires Valid() && m.Packet?
      modifies this, pages, currentPage
      ensures State() == HandlePacket(old(State()), m, host.crc) && pages == old(pages)
    {
      if m.page != rxPage || m.page >= pages.Length {
        return;
      }
      if m.version != version {
        inconsistent := true;
      }
      if m.version == pages[m.page].version && !pages[m.page].complete {
        var completed := StorePacket(m);
        if completed {
          EndPage();
        }
      }
    }

    /** The profile timer fires. */
    method OnProfileTimer() returns (sent: set<Msg>)
      requires Valid()
      modifies this
      ensures (State(), sent) == SendProfile(old(State()))
    {
      profileTimer := false;
      sent := {};
      if broadcastProfile && recvAdv < CONST_K {
        broadcastProfile := false;
        var vector := [];
        for i := 0 to pages.Length
          invariant vector == Versions(pages[..])[..i]
        {
          vector := vector + [pages[i].version];
        }
        assert vector == Versions(pages[..]);
        sent := {Profile(version, vector)};
      }
    }

    /** The page table after a profile, in newly allocated memory. */
    method NewTable(vector: seq<nat>) returns (table: array<Page>)
      ensures fresh(table) && table[..] == ProfiledPages(pages[..], vector)
    {
      table := new Page[|vector|](i => Page(0, {}, false));
      for i := 0 to |vector|
        invariant forall j :: 0 <= j < i ==> table[j] == ProfiledPages(pages[..], vector)[j]
        invariant forall j :: i <= j < |vector| ==> table[j] == Page(0, {}, false)
        modifies table
      {
        if i < pages.Length {
          table[i] := pages[i];
          if vector[i] > table[i].version {
            table[i] := Page(vector[i], {}, false);
          }
        }
      }
    }

    method AdoptTable(msgVersion: nat, vector: seq<nat>)
      requires Valid()
      modifies this`txSet, this`pages, this`rxPage, this`updateVersion
      ensures var table := ProfiledPages(old(pages[..]), vector);
              Obj() == old(Obj()).(txSet := {}, pages := table, rxPage := FirstMissing(table, 0),
                              updateVersion := msgVersion)
      ensures fresh(pages)
    {
      txSet := {};
      pages := NewTable(vector);
      rxPage := HighestAvailablePage();
      updateVersion := msgVersion;
    }

    method OnProfile(msgVersion: nat, vector: seq<nat>)
      requires Valid()
      modifies this
      ensures State() == HandleProfile(old(State()), msgVersion, vector)
      ensures pages == old(pages) || fresh(pages)
    {
      if msgVersion <= updateVersion {
        return;
      }
      AdoptTable(msgVersion, vector);
      ChangeMode(RX);
      rxTimer := true;
    }

    /** The dispatcher, on a message of the length with which it is sent. */
    method OnMessage(m: Msg, suppressed: bool)
      requires Valid()
      modifies this, pages, currentPage
      ensures State() == Receive(old(State()), m, suppressed, host)
    {
      match m {
        case Summary(v, h) => OnSummary(v, h, suppressed);
        case Request(v, p, k) => OnRequest(v, p, k);
        case Packet(_, _, _, _, _) => OnPacket(m);
        case Profile(v, vs) =>
          var length := ProfileLength(vs, host.room);
          if length >= PROFILE_HEADER && LongEnough(length, vs) {
            OnProfile(v, vs);
          }
      }
    }
  }
}
