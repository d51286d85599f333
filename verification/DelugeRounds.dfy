/** What a Deluge node does within one exchange: a request and its answer, a round of summaries, the
    end of a page, the adoption of a profile. */
module DelugeRounds {
  import opened Common
  import opened Deluge
  import opened DelugeRuns
  import opened DelugeShape

  // ----- a request and its answer -----

  /** The packets of page `p` with the given numbers, as a node has them. */
  function PacketsOf(o: Object, p: nat, numbers: set<PacketNo>, host: Host): set<Msg>
    requires p < |o.pages|
  {
    var data := ReadPage(o.file, p);
    set k: PacketNo | k in numbers :: Packet(o.pages[p].version, p, k, host.crc(data[k]), data[k])
  }

  /** A request of a node for its current page is answered with the packets that the node does not
      hold, and with those of this page that are still to be sent to others: nothing else, and none
      left out. */
  lemma AnswersExactly(o: Object, s: State, suppressed: bool, host: Host)
    requires o.rxPage < |o.pages| && o.rxPage < TX_PAGES && s.obj.txPage < TX_PAGES
    ensures var p := o.rxPage;
            var held := o.pages[p].packets;
            var t := Receive(s, RequestOf(o, 0, {}), suppressed, host);
            if p <= s.obj.Highest() && p < |s.obj.pages| && o.pages[p].version == s.obj.version
            then
              var missing := set k: PacketNo | k in ALL_PACKETS
                  && (k !in held || (s.obj.txPage == p && k in s.obj.txSet));
              t.timers.tx && TxCallback(t, host.crc).1 == PacketsOf(s.obj, p, missing, host)
            else t.obj == s.obj
  {
    var p, held := o.rxPage, o.pages[o.rxPage].packets;
    var t := Receive(s, RequestOf(o, 0, {}), suppressed, host);
    if p <= s.obj.Highest() && p < |s.obj.pages| && o.pages[p].version == s.obj.version {
      var missing := set k: PacketNo | k in ALL_PACKETS && (k !in held || (s.obj.txPage == p && k in s.obj.txSet));
      assert t.obj.txPage == p && 7 in t.obj.txSet;
      assert forall k: PacketNo :: k in missing <==> k in t.obj.txSet;
      SamePackets(t.obj, s.obj, p, missing, host);
    }
  }

  lemma SamePackets(o: Object, was: Object, p: nat, numbers: set<PacketNo>, host: Host)
    requires p < |was.pages| && o.pages == was.pages && o.file == was.file
    requires forall k: PacketNo :: k in numbers <==> k in o.txSet
    ensures PagePackets(o, p, host.crc) == PacketsOf(was, p, numbers, host)
  {
    forall m ensures m in PagePackets(o, p, host.crc) <==> m in PacketsOf(was, p, numbers, host) {
      if m in PacketsOf(was, p, numbers, host) {
        assert m.number in ALL_PACKETS;
      }
    }
  }

  /** A node asks twice. After a second request in a row without a page it falls silent. */
  lemma TwoRequests(s: State)
    requires s.obj.requests == 0
    ensures var once, twice := SendRequest(s), SendRequest(SendRequest(s));
            && once.timers.rx && once.mode == s.mode && once.obj == s.obj.(requests := 1)
            && !twice.timers.rx && twice.mode == MAINTAIN && twice.obj == s.obj
  {
  }

  // ----- a round -----

  /** A summary that arrives; `suppressed` as for `handle_summary`. */
  datatype Heard = Heard(version: nat, highest: nat, suppressed: bool)
  {
    /** It says what the node would say. */
    predicate Same(o: Object) {
      version == o.version && highest == o.Highest()
    }

    /** It offers pages of the update that the node is at. */
    predicate Offers(o: Object) {
      version == o.updateVersion && o.Highest() < highest <= |o.pages| && !suppressed
    }
  }

  /** The state after some summaries. */
  function Hearing(s: State, heard: seq<Heard>): State {
    if heard == [] then s else
    var last := heard[|heard| - 1];
    HandleSummary(Hearing(s, heard[..|heard| - 1]), last.version, last.highest, last.suppressed)
  }

  ghost predicate SomeSame(o: Object, heard: seq<Heard>) {
    exists h :: h in heard && h.Same(o)
  }

  ghost predicate SomeOther(o: Object, heard: seq<Heard>) {
    exists h :: h in heard && !h.Same(o)
  }

  ghost predicate SomeOlder(o: Object, heard: seq<Heard>) {
    exists h :: h in heard && h.version < o.version
  }

  ghost predicate SomeOffer(o: Object, heard: seq<Heard>) {
    exists h :: h in heard && h.Offers(o)
  }

  lemma SomeOfMore(o: Object, heard: seq<Heard>)
    requires heard != []
    ensures var few, last := heard[..|heard| - 1], heard[|heard| - 1];
            && (SomeSame(o, heard) <==> SomeSame(o, few) || last.Same(o))
            && (SomeOther(o, heard) <==> SomeOther(o, few) || !last.Same(o))
            && (SomeOlder(o, heard) <==> SomeOlder(o, few) || last.version < o.version)
            && (SomeOffer(o, heard) <==> SomeOffer(o, few) || last.Offers(o))
  {
    var few, last := heard[..|heard| - 1], heard[|heard| - 1];
    assert heard == few + [last];
    assert forall h :: h in heard <==> h in few || h == last;
  }

  /** What a node makes of the summaries of a round: the round was inconsistent iff one of them was
      different from its own; the profile is to be sent iff one was older; the receive timer runs
      iff one offered a page. */
  lemma {:induction false} RoundHeard(s: State, heard: seq<Heard>)
    ensures var t, o := Hearing(NewRound(s), heard), s.obj;
            && t.obj == o
            && (t.inconsistent <==> SomeOther(o, heard))
            && (t.recvAdv > 0 <==> SomeSame(o, heard))
            && (t.broadcastProfile <==> s.broadcastProfile || SomeOlder(o, heard))
            && (t.timers.rx <==> s.timers.rx || SomeOffer(o, heard))
  {
    if heard != [] {
      RoundHeard(s, heard[..|heard| - 1]);
      SomeOfMore(s.obj, heard);
    }
  }

  /** A node is polite: it sends its summary in a round iff it has not heard the same one, and its
      profile iff besides it has heard of an older version. */
  lemma RoundSends(s: State, heard: seq<Heard>)
    ensures var t, o := Hearing(NewRound(s), heard), s.obj;
            && AdvertiseSummary(t).1 ==
               (if SomeSame(o, heard) then {} else {Summary(o.updateVersion, o.Highest())})
            && SendProfile(t).1 ==
               if !SomeSame(o, heard) && (s.broadcastProfile || SomeOlder(o, heard))
               then {Profile(o.version, Versions(o.pages))} else {}
  {
    RoundHeard(s, heard);
  }

  /** A request or a packet of another version makes the round inconsistent, if it is for a page that
      the node has, or for the current page. */
  lemma OtherVersionHeard(s: State, version: nat, page: nat, packets: PacketBits, m: Msg, host: Host)
    requires m.Packet?
    ensures HandleRequest(s, version, page, packets).inconsistent ==
            (s.inconsistent || (page < |s.obj.pages| && version != s.obj.version))
    ensures HandlePacket(s, m, host.crc).inconsistent ==
            (s.inconsistent || (m.page == s.obj.rxPage < |s.obj.pages| && m.version != s.obj.version))
  {
  }

  // ----- the end of a page, and a profile -----

  /** When a page is complete, the node goes back to maintenance. Coming from the receive mode it does
      not ask for the next page by itself: its timer is stopped, and it waits for a summary. */
  lemma PageDone(s: State, m: Msg, host: Host)
    requires m.Packet? && Wanted(s.obj, m) && Intact(m, host)
    requires s.obj.pages[m.page].packets + {m.number} == ALL_PACKETS
    ensures var t := HandlePacket(s, m, host.crc);
            && t.mode == MAINTAIN && t.obj.rxPage == s.obj.rxPage + 1
            && (t.timers.rx <==> s.mode != RX && (s.timers.rx || s.obj.rxPage + 1 < |s.obj.pages|))
  {
  }

  /** A newer profile decides page by page: what is not older than the profile stays, with the packets
      held of it; what is older is begun anew; pages behind the table are added without a version, and
      pages behind the profile are dropped. The node then asks for the first page that is not
      complete. */
  lemma ProfileTable(s: State, version: nat, versions: seq<nat>)
    requires version > s.obj.updateVersion
    ensures var t := HandleProfile(s, version, versions);
            && t.mode == RX && t.timers.rx && t.obj.updateVersion == version && t.obj.version == s.obj.version
            && t.obj.file == s.obj.file && t.obj.rxPage == t.obj.Highest() && |t.obj.pages| == |versions|
            && forall i :: 0 <= i < |versions| ==>
                 var page := t.obj.pages[i];
                 if i >= |s.obj.pages| then page == Page(0, {}, false)
                 else if s.obj.pages[i].version >= versions[i] then page == s.obj.pages[i]
                 else page == Page(versions[i], {}, false)
  {
  }
}
