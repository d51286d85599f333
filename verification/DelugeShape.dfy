/** What every event of Deluge keeps, whatever bytes arrive: the versions, page tables and
    messages of nodes that started with the given versions. */
module DelugeShape {
  import opened Deluge
  import opened DelugeRuns

  /** Pages that can be sent: the number of the page to send has eight bits and a sign. */
  const TX_PAGES: nat := 128

  predicate CompleteAt(o: Object, p: nat, version: nat) {
    p < |o.pages| && o.pages[p].version == version && o.pages[p].complete
  }

  /** A page that has to be received, of which only the current one has begun. */
  predicate Missing(o: Object, p: nat) {
    && p < |o.pages| && o.pages[p].version == 1 && !o.pages[p].complete && o.pages[p].packets != ALL_PACKETS
    && (p != o.rxPage ==> o.pages[p].packets == {})
  }

  datatype Network = Network(versions: seq<nat>, pages: nat, host: Host)
  {
    /** The only update that can happen: a profile of it is not cut. */
    predicate Updates(start: nat) {
      start == 0 && 1 in versions && PROFILE_HEADER + pages <= host.room
    }

    /** A node all of whose pages are complete; only those of version 1 are ever asked for them. */
    ghost predicate Still(o: Object, version: nat) {
      && o.version == o.updateVersion == version && |o.pages| == pages <= |o.file|
      && (forall p :: 0 <= p < pages ==> CompleteAt(o, p, version)) && (version != 1 ==> o.txSet == {})
    }

    /** A node that is receiving version 1: it has the pages below the current one. */
    ghost predicate Receiving(o: Object) {
      && o.version == 0 && o.updateVersion == 1 && |o.pages| == pages <= |o.file| && o.rxPage < pages
         && o.rxPage <= TX_PAGES
      && (forall p :: 0 <= p < o.rxPage ==> CompleteAt(o, p, 1)) && o.txSet == {}
      && (forall p :: o.rxPage <= p < pages ==> Missing(o, p))
    }

    /** The same node when it has just heard of version 1. */
    ghost predicate Starting(o: Object) {
      |o.pages| == pages && o.rxPage == 0 && forall p :: 0 <= p < pages ==> o.pages[p] == Page(1, {}, false)
    }

    ghost predicate Phase(o: Object, start: nat) {
      Still(o, start) || (Updates(start) && (Receiving(o) || (Still(o, 1) && pages <= TX_PAGES)))
    }

    /** A node asks for pages only once it knows of version 1. */
    ghost predicate NodeOk(s: State, start: nat) {
      Phase(s.obj, start) && s.obj.txPage < TX_PAGES && (s.timers.rx ==> s.obj.updateVersion == 1)
    }

    /** Every message that is sent; requests for a page that does not exist come from the
        stray read. */
    predicate MsgOk(m: Msg) {
      match m
      case Summary(_, h) => h <= pages
      case Request(v, p, _) => p < pages ==> v == 1
      case Packet(v, p, _, _, _) => v == 1 && p < pages && p < TX_PAGES
      case Profile(v, vs) =>
        |vs| == pages && (v == 1 ==> 1 in versions) && forall p :: 0 <= p < |vs| ==> (v >= 1 ==> vs[p] == v)
    }

    ghost predicate Inv(w: World) {
      && |w.nodes| == |versions|
      && (forall i :: 0 <= i < |w.nodes| ==> NodeOk(w.nodes[i], versions[i]))
      && (forall m :: m in w.net ==> MsgOk(m))
    }

    // ----- every event keeps the invariant -----

    lemma HighestOf(o: Object, start: nat)
      requires Phase(o, start)
      ensures o.Highest() == if o.version == o.updateVersion then pages else o.rxPage
      ensures |o.pages| == pages
    {
      if Receiving(o) {
        assert Missing(o, o.rxPage);
        forall j | 0 <= j < o.rxPage ensures o.pages[j].complete {
          assert CompleteAt(o, j, 1);
        }
        FirstMissingIs(o.pages, o.rxPage);
      } else {
        forall j | 0 <= j < pages ensures o.pages[j].complete {
          assert CompleteAt(o, j, o.version);
        }
        FirstMissingIs(o.pages, pages);
      }
    }

    /** What is sent, and how often, does not matter for the phase. */
    lemma OtherFields(o: Object, t: Object, start: nat)
      requires Phase(o, start) && t == o.(txPage := t.txPage, txSet := t.txSet, requests := t.requests)
      requires o.version != 1 ==> t.txSet == {}
      ensures Phase(t, start)
    {
      assert forall p, v: nat :: 0 <= p ==> CompleteAt(t, p, v) == CompleteAt(o, p, v);
      assert forall p :: 0 <= p ==> Missing(t, p) == Missing(o, p);
    }

    lemma SummaryKeeps(s: State, start: nat, v: nat, h: nat, suppressed: bool)
      requires NodeOk(s, start) && MsgOk(Summary(v, h))
      ensures NodeOk(HandleSummary(s, v, h, suppressed), start)
    {
      HighestOf(s.obj, start);
    }

    lemma RequestKeeps(s: State, start: nat, v: nat, p: nat, packets: PacketBits)
      requires NodeOk(s, start) && MsgOk(Request(v, p, packets))
      ensures NodeOk(HandleRequest(s, v, p, packets), start)
    {
      HighestOf(s.obj, start);
      OtherFields(s.obj, HandleRequest(s, v, p, packets).obj, start);
    }

    lemma PacketKeeps(s: State, start: nat, m: Msg)
      requires NodeOk(s, start) && m.Packet? && MsgOk(m)
      ensures NodeOk(HandlePacket(s, m, host.crc), start)
    {
      if Wanted(s.obj, m) {
        WantedMeansReceiving(s.obj, start, m);
        PacketTaken(s.obj, m);
      }
    }

    lemma WantedMeansReceiving(o: Object, start: nat, m: Msg)
      requires Phase(o, start) && m.Packet? && Wanted(o, m)
      ensures Receiving(o) && Updates(start) && Missing(o, m.page)
    {
      assert Still(o, start) ==> CompleteAt(o, m.page, start);
      assert Still(o, 1) ==> CompleteAt(o, m.page, 1);
    }

    /** A wanted packet belongs to the current page; the version changes only with the last
        page. */
    lemma PacketTaken(o: Object, m: Msg)
      requires Receiving(o) && m.Packet? && MsgOk(m) && Wanted(o, m)
      ensures var t := TakePacket(o, m, host.crc); Receiving(t) || (Still(t, 1) && pages <= TX_PAGES)
    {
      var t := TakePacket(o, m, host.crc);
      assert Missing(o, o.rxPage);
      forall p | 0 <= p < o.rxPage ensures CompleteAt(t, p, 1) {
        assert CompleteAt(o, p, 1);
      }
      forall p | o.rxPage < p < pages ensures Missing(t, p) {
        assert Missing(o, p);
      }
      if t.rxPage > o.rxPage {
        assert CompleteAt(t, o.rxPage, 1);
      }
    }

    lemma ProfileKeeps(s: State, start: nat, v: nat, vs: seq<nat>, suppressed: bool)
      requires NodeOk(s, start) && MsgOk(Profile(v, vs)) && pages > 0
      ensures var t := Receive(s, Profile(v, vs), suppressed, host);
              && NodeOk(t, start)
              && (t.obj.updateVersion != s.obj.updateVersion ==> Still(s.obj, 0) && Starting(t.obj))
    {
      LongEnoughIff(vs, host.room);
      if v > s.obj.updateVersion && Passes(vs, host.room) {
        assert Still(s.obj, 0) && v == 1;
        var t := HandleProfile(s, v, vs).obj;
        forall p | 0 <= p < pages ensures t.pages[p] == Page(1, {}, false) {
          assert CompleteAt(s.obj, p, 0);
        }
        FirstMissingIs(t.pages, 0);
        assert forall p :: 0 <= p < pages ==> Missing(t, p);
      }
    }

    lemma TimersKeep(s: State, start: nat, e: Event)
      requires NodeOk(s, start) && !e.Deliver? && !e.Damage? && Enabled(s, {}, e, host)
      ensures NodeOk(Act(s, e, host).0, start)
    {
      HighestOf(s.obj, start);
      OtherFields(s.obj, Act(s, e, host).0.obj, start);
    }

    /** What brings a message brings one that was sent. */
    predicate EventOk(s: State, e: Event) {
      if e.Deliver? || e.Damage? then MsgOk(e.m) && Enabled(s, {e.m}, e, host) else Enabled(s, {}, e, host)
    }

    lemma NodeKeeps(s: State, start: nat, e: Event)
      requires NodeOk(s, start) && EventOk(s, e) && pages > 0
      ensures NodeOk(Act(s, e, host).0, start)
    {
      match e {
        case Deliver(Summary(v, h), suppressed) => SummaryKeeps(s, start, v, h, suppressed);
        case Deliver(Request(v, p, packets), _) => RequestKeeps(s, start, v, p, packets);
        case Deliver(Packet(_, _, _, _, _), _) => PacketKeeps(s, start, e.m);
        case Deliver(Profile(v, vs), suppressed) => ProfileKeeps(s, start, v, vs, suppressed);
        case Damage(_, _) => PacketKeeps(s, start, e.Arriving());
        case _ => TimersKeep(s, start, e);
      }
    }

    lemma SentOk(s: State, start: nat, e: Event, m: Msg)
      requires start in versions && NodeOk(s, start) && Enabled(s, {}, e, host) && m in Act(s, e, host).1
      ensures MsgOk(m)
    {
      var o := s.obj;
      HighestOf(o, start);
      match e {
        case ProfileTimer =>
          if o.version >= 1 {
            forall p | 0 <= p < pages ensures Versions(o.pages)[p] == o.version {
              assert CompleteAt(o, p, o.version);
            }
          }
        case RxTimer(_, _) =>
          assert o.rxPage < pages ==> CompleteAt(o, o.rxPage, 1) || Missing(o, o.rxPage);
        case TxTimer =>
          assert CompleteAt(o, o.txPage, 1);
        case _ =>
      }
    }

    lemma StepKeeps(w: World, at: nat, e: Event)
      requires Inv(w) && pages > 0
      ensures Inv(Step(w, at, e, host))
    {
      if Happens(w, at, e, host) {
        NodeKeeps(w.nodes[at], versions[at], e);
        forall m | m in Act(w.nodes[at], e, host).1 ensures MsgOk(m) {
          SentOk(w.nodes[at], versions[at], e, m);
        }
      }
    }

    lemma {:induction false} RunKeeps(w: World, run: seq<(nat, Event)>)
      requires Inv(w) && pages > 0
      ensures Inv(After(w, run, host))
    {
      if run != [] {
        var n := |run| - 1;
        RunKeeps(w, run[..n]);
        StepKeeps(After(w, run[..n], host), run[n].0, run[n].1);
      }
    }

    lemma InitialOk(c: Contents, buffers: seq<PageData>)
      requires |buffers| == |versions| && c.pages == pages
      ensures Inv(Initial(versions, c, buffers))
    {
      var w := Initial(versions, c, buffers);
      forall i | 0 <= i < |versions| ensures NodeOk(w.nodes[i], versions[i]) {
        assert forall p :: 0 <= p < pages ==> CompleteAt(w.nodes[i].obj, p, versions[i]);
      }
    }

    lemma PhaseUpright(o: Object, start: nat)
      requires Phase(o, start)
      ensures Upright(o)
    {
      HighestOf(o, start);
      if Receiving(o) {
        forall p | 0 <= p < o.rxPage ensures o.pages[p].complete {
          assert CompleteAt(o, p, 1);
        }
      } else {
        forall p | 0 <= p < pages ensures o.pages[p].complete && o.pages[p].version == o.version {
          assert CompleteAt(o, p, o.version);
        }
      }
    }
  }
}
