/** Deluge agreement: when complete pages have the right bytes. */
module DelugeAgreement {
  import opened Deluge
  import opened DelugeRuns
  import opened DelugeShape

  /** A page that is complete at a version without having the bytes of that version. */
  predicate WrongPage(c: Contents, o: Object, p: nat) {
    p < |o.pages| && o.pages[p].complete && !c.HasPage(o, o.pages[p].version, p)
  }

  /** A node with a wrong page of an update. */
  ghost predicate Wrong(c: Contents, o: Object) {
    o.updateVersion >= 1 && exists p :: WrongPage(c, o, p)
  }

  datatype Dissemination = Dissemination(versions: seq<nat>, c: Contents, host: Host)
  {
    function Net(): Network {
      Network(versions, c.pages, host)
    }

    /** The packets noted of the current page have the right bytes in the assembly buffer,
        except for those that are spoilt. */
    ghost predicate BufferOk(o: Object, spoilt: set<PacketNo>) {
      o.rxPage < |o.pages| && !o.pages[o.rxPage].complete ==>
        forall k :: k in o.pages[o.rxPage].packets ==> (o.buffer[k] == c.image(1)(o.rxPage)[k] <==> k !in spoilt)
    }

    ghost predicate NodeRight(o: Object, spoilt: set<PacketNo>) {
      c.Agrees(o) && BufferOk(o, spoilt)
    }

    predicate MsgRight(m: Msg) {
      m.Packet? ==> m.payload == c.image(1)(m.page)[m.number] && Intact(m, host)
    }

    // ----- one event -----

    /** The page that a wanted packet completes is right iff no packet of it is spoilt. */
    lemma TakenBytes(o: Object, start: nat, e: Event, spoilt: set<PacketNo>)
      requires Net().Phase(o, start) && NodeRight(o, spoilt)
      requires TakesPacket(o, e) && MsgRight(e.m) && (e.Damage? ==> host.crc(e.payload) != e.m.crc)
      ensures var t, left := TakePacket(o, e.Arriving(), host.crc), SpoiltBy(spoilt, o, e, host);
              && BufferOk(t, left)
              && if Completes(o, e, host) && left != {} then WrongPage(c, t, o.rxPage) else c.Agrees(t)
    {
      var m, left := e.Arriving(), SpoiltBy(spoilt, o, e, host);
      var t := TakePacket(o, m, host.crc);
      Net().WantedMeansReceiving(o, start, m);
      if Completes(o, e, host) {
        CompletedBytes(o, m, spoilt);
        assert t.rxPage < |t.pages| ==> Missing(o, t.rxPage);
      }
      forall p | 0 <= p < |t.pages| && t.pages[p].complete && p != o.rxPage
          ensures c.HasPage(t, t.pages[p].version, p) {
        assert c.HasPage(o, o.pages[p].version, p);
      }
    }

    lemma CompletedBytes(o: Object, m: Msg, spoilt: set<PacketNo>)
      requires m.Packet? && Wanted(o, m) && BufferOk(o, spoilt)
      requires m.payload == c.image(1)(m.page)[m.number] && o.pages[m.page].packets + {m.number} == ALL_PACKETS
      ensures o.buffer[m.number := m.payload] == c.image(1)(m.page) <==> spoilt - {m.number} == {}
    {
      var data := o.buffer[m.number := m.payload];
      forall k: PacketNo ensures data[k] == c.image(1)(m.page)[k] <==> k !in spoilt - {m.number} {
        assert k in ALL_PACKETS;
      }
      if spoilt - {m.number} != {} {
        var k :| k in spoilt - {m.number};
        assert data[k] != c.image(1)(m.page)[k];
      } else {
        assert forall k: PacketNo :: data[k] == c.image(1)(m.page)[k];
      }
    }

    /** All other events leave bytes and pages alone, or start the update. */
    lemma UntouchedBytes(s: State, start: nat, e: Event, spoilt: set<PacketNo>)
      requires Net().NodeOk(s, start) && Net().EventOk(s, e) && NodeRight(s.obj, spoilt)
               && !TakesPacket(s.obj, e) && c.pages > 0
      ensures NodeRight(Act(s, e, host).0.obj, spoilt)
    {
      var o, t := s.obj, Act(s, e, host).0.obj;
      Effect(s, e, host);
      if t.updateVersion == o.updateVersion {
        assert forall v, p: nat :: c.HasPage(t, v, p) == c.HasPage(o, v, p);
      } else {
        Net().ProfileKeeps(s, start, e.m.version, e.m.versions, e.suppressed);
      }
    }

    lemma EventBytes(s: State, start: nat, e: Event, spoilt: set<PacketNo>)
      requires Net().NodeOk(s, start) && Net().EventOk(s, e) && NodeRight(s.obj, spoilt) && c.pages > 0
      requires e.BringsPacket() ==> MsgRight(e.m)
      ensures var t, left := Act(s, e, host).0.obj, SpoiltBy(spoilt, s.obj, e, host);
              if Completes(s.obj, e, host) && left != {} then Wrong(c, t) else NodeRight(t, left)
    {
      if TakesPacket(s.obj, e) {
        TakenBytes(s.obj, start, e, spoilt);
        Net().WantedMeansReceiving(s.obj, start, e.Arriving());
      } else {
        UntouchedBytes(s, start, e, spoilt);
      }
    }

    lemma SentRight(s: State, start: nat, e: Event, m: Msg)
      requires Net().NodeOk(s, start) && c.Agrees(s.obj) && Enabled(s, {}, e, host) && m in Act(s, e, host).1
      ensures MsgRight(m)
    {
      if m.Packet? {
        assert CompleteAt(s.obj, s.obj.txPage, 1);
        assert c.HasPage(s.obj, 1, s.obj.txPage);
      }
    }

    /** A wrong page stays: it is complete, and no profile of a newer version is let through. */
    lemma WrongStays(s: State, start: nat, e: Event)
      requires Net().NodeOk(s, start) && Net().EventOk(s, e) && Wrong(c, s.obj) && c.pages > 0
      ensures Wrong(c, Act(s, e, host).0.obj)
    {
      var o, t := s.obj, Act(s, e, host).0.obj;
      var p :| WrongPage(c, o, p);
      Effect(s, e, host);
      if e.Deliver? && e.m.Profile? {
        LongEnoughIff(e.m.versions, host.room);
      }
      assert t.updateVersion == o.updateVersion;
      assert WrongPage(c, t, p) by {
        if TakesPacket(o, e) {
          Net().WantedMeansReceiving(o, start, e.Arriving());
        }
      }
    }

    // ----- runs -----

    ghost predicate Right(w: World, run: seq<(nat, Event)>) {
      && (forall i :: 0 <= i < |After(w, run, host).nodes| ==>
         NodeRight(After(w, run, host).nodes[i].obj, Spoilt(w, run, i, host)))
      && (forall m :: m in After(w, run, host).net ==> MsgRight(m))
    }

    ghost predicate SomeWrong(w: World) {
      exists i :: 0 <= i < |w.nodes| && Wrong(c, w.nodes[i].obj)
    }

    /** An event at a node leaves the other nodes and what is spoilt there alone. */
    lemma StepBytes(w: World, run: seq<(nat, Event)>)
      requires run != [] && c.pages > 0
      requires Net().Inv(After(w, run[..|run| - 1], host)) && Right(w, run[..|run| - 1])
               && Clean(w, run[..|run| - 1], host)
      ensures if Clean(w, run, host) then Right(w, run) else SomeWrong(After(w, run, host))
    {
      var shorter := run[..|run| - 1];
      var before, at, e := After(w, shorter, host), run[|run| - 1].0, run[|run| - 1].1;
      if Happens(before, at, e, host) {
        var s, v := before.nodes[at], After(w, run, host);
        var t := Act(s, e, host).0;
        assert v.nodes[at] == t && NodeRight(s.obj, Spoilt(w, shorter, at, host));
        EventBytes(s, versions[at], e, Spoilt(w, shorter, at, host));
        if Clean(w, run, host) {
          forall i | 0 <= i < |v.nodes| ensures NodeRight(v.nodes[i].obj, Spoilt(w, run, i, host)) {
            assert i != at ==> v.nodes[i] == before.nodes[i] && Spoilt(w, run, i, host) == Spoilt(w, shorter, i, host);
          }
          forall m | m in v.net ensures MsgRight(m) {
            if m in Act(s, e, host).1 {
              SentRight(s, versions[at], e, m);
            }
          }
        } else {
          assert Wrong(c, v.nodes[at].obj);
        }
      }
    }

    lemma StepStaysWrong(w: World, at: nat, e: Event)
      requires Net().Inv(w) && SomeWrong(w) && c.pages > 0
      ensures SomeWrong(Step(w, at, e, host))
    {
      var i :| 0 <= i < |w.nodes| && Wrong(c, w.nodes[i].obj);
      if i == at && Happens(w, at, e, host) {
        WrongStays(w.nodes[at], versions[at], e);
      }
      assert Wrong(c, Step(w, at, e, host).nodes[i].obj);
    }

    lemma {:induction false} RunBytes(w: World, run: seq<(nat, Event)>)
      requires Net().Inv(w) && Right(w, []) && c.pages > 0
      ensures if Clean(w, run, host) then Right(w, run) else SomeWrong(After(w, run, host))
    {
      if run != [] {
        var n := |run| - 1;
        RunBytes(w, run[..n]);
        Net().RunKeeps(w, run[..n]);
        if Clean(w, run[..n], host) {
          StepBytes(w, run);
        } else {
          StepStaysWrong(After(w, run[..n], host), run[n].0, run[n].1);
        }
      }
    }

    lemma InitialRight(buffers: seq<PageData>)
      requires |buffers| == |versions|
      ensures Right(Initial(versions, c, buffers), [])
    {
      var w := Initial(versions, c, buffers);
      forall i | 0 <= i < |versions| ensures c.Agrees(w.nodes[i].obj) {
        assert forall p :: 0 <= p < c.pages ==> c.HasPage(w.nodes[i].obj, versions[i], p);
      }
    }

    ghost predicate AllAgree(w: World) {
      forall i :: 0 <= i < |w.nodes| ==> c.Agrees(w.nodes[i].obj)
    }

    /** Whatever versions the nodes start with, and whatever is lost, delayed or damaged: after
        a run the complete pages of all nodes have the right bytes iff, whenever a page was
        completed, the last wanted packet of every number had the right checksum. */
    lemma AgreesIffClean(buffers: seq<PageData>, run: seq<(nat, Event)>)
      requires |buffers| == |versions| && c.pages > 0
      ensures AllAgree(After(Initial(versions, c, buffers), run, host))
              <==> Clean(Initial(versions, c, buffers), run, host)
    {
      var w := Initial(versions, c, buffers);
      Net().InitialOk(c, buffers);
      InitialRight(buffers);
      RunBytes(w, run);
      if !Clean(w, run, host) {
        var v := After(w, run, host);
        var i :| 0 <= i < |v.nodes| && Wrong(c, v.nodes[i].obj);
        var p :| WrongPage(c, v.nodes[i].obj, p);
        assert !c.Agrees(v.nodes[i].obj);
      }
    }
  }

  predicate Undamaged(run: seq<(nat, Event)>) {
    forall n :: 0 <= n < |run| ==> !run[n].1.Damage?
  }

  /** Without damage nothing is spoilt. */
  lemma {:induction false} UndamagedClean(d: Dissemination, w: World, run: seq<(nat, Event)>)
    requires d.Net().Inv(w) && d.Right(w, []) && d.c.pages > 0 && Undamaged(run)
    ensures Clean(w, run, d.host) && forall i :: Spoilt(w, run, i, d.host) == {}
  {
    if run != [] {
      var n := |run| - 1;
      UndamagedClean(d, w, run[..n]);
      d.RunBytes(w, run[..n]);
    }
  }

  /** Agreement: whatever versions the nodes start with, and whatever is lost, duplicated,
      delayed or reordered, a page that is complete at a version has the bytes of that version,
      and the version of a node changes only when all pages are there. */
  lemma Agreement(versions: seq<nat>, c: Contents, buffers: seq<PageData>, host: Host,
                  run: seq<(nat, Event)>, w: World, i: nat)
    requires |buffers| == |versions| && c.pages > 0 && i < |versions| && Undamaged(run)
    requires w == After(Initial(versions, c, buffers), run, host)
    ensures |w.nodes| == |versions| && c.Agrees(w.nodes[i].obj) && Upright(w.nodes[i].obj)
  {
    var d, start := Dissemination(versions, c, host), Initial(versions, c, buffers);
    d.Net().InitialOk(c, buffers);
    d.InitialRight(buffers);
    d.Net().RunKeeps(start, run);
    UndamagedClean(d, start, run);
    d.AgreesIffClean(buffers, run);
    d.Net().PhaseUpright(w.nodes[i].obj, versions[i]);
  }

  /** In every run, damaged or not, the only update a node ever starts is that from version 0
      to version 1, and none if its profile does not fit into the packet buffer. */
  lemma OnlyOneUpdate(versions: seq<nat>, c: Contents, buffers: seq<PageData>, host: Host,
                      run: seq<(nat, Event)>, i: nat)
    requires |buffers| == |versions| && c.pages > 0 && i < |versions|
    ensures var w := After(Initial(versions, c, buffers), run, host);
            |w.nodes| == |versions| && var o := w.nodes[i].obj;
            && Upright(o)
            && (o.updateVersion != versions[i] ==> versions[i] == 0 && o.updateVersion == 1 && 1 in versions)
            && (o.updateVersion != versions[i] ==> PROFILE_HEADER + c.pages <= host.room)
  {
    var d, w := Dissemination(versions, c, host), Initial(versions, c, buffers);
    d.Net().InitialOk(c, buffers);
    d.Net().RunKeeps(w, run);
    d.Net().PhaseUpright(After(w, run, host).nodes[i].obj, versions[i]);
  }

  // ----- progress -----

  /** The number of packets that a node holds of a version. */
  function Held(pages: seq<Page>, version: nat): nat {
    if pages == [] then 0 else Held(pages[..|pages| - 1], version) + HeldOf(pages[|pages| - 1], version)
  }

  function HeldOf(page: Page, version: nat): nat {
    if page.version != version then 0 else if page.complete then N_PKT else |page.packets|
  }

  lemma {:induction false} HeldUpdate(pages: seq<Page>, p: nat, page: Page, version: nat)
    requires p < |pages|
    ensures Held(pages[p := page], version) == Held(pages, version) - HeldOf(pages[p], version) + HeldOf(page, version)
  {
    var n := |pages| - 1;
    if p < n {
      HeldUpdate(pages[..n], p, page, version);
      assert pages[p := page][..n] == pages[..n][p := page];
    } else {
      assert pages[p := page][..n] == pages[..n];
    }
  }

  lemma {:induction false} HeldNothing(pages: seq<Page>, version: nat)
    requires forall p :: 0 <= p < |pages| ==> HeldOf(pages[p], version) == 0
    ensures Held(pages, version) == 0
  {
    if pages != [] {
      HeldNothing(pages[..|pages| - 1], version);
    }
  }

  /** A packet that the node asked for, has not got yet, and that arrives intact. */
  predicate Fetches(o: Object, e: Event, host: Host) {
    TakesPacket(o, e) && Intact(e.Arriving(), host) && e.Arriving().number !in o.pages[e.m.page].packets
  }

  /** No event loses a packet of the new version; each fetched packet adds one. */
  lemma Progress(net: Network, s: State, start: nat, e: Event)
    requires net.NodeOk(s, start) && net.EventOk(s, e) && net.pages > 0
    ensures var t := Act(s, e, net.host).0;
            Held(t.obj.pages, 1) == Held(s.obj.pages, 1) + if Fetches(s.obj, e, net.host) then 1 else 0
  {
    var o, t := s.obj, Act(s, e, net.host).0.obj;
    Effect(s, e, net.host);
    if TakesPacket(o, e) {
      net.WantedMeansReceiving(o, start, e.Arriving());
      TakenHeld(o, e.Arriving(), net.host);
    } else if t.updateVersion != o.updateVersion {
      net.ProfileKeeps(s, start, e.m.version, e.m.versions, e.suppressed);
      forall p | 0 <= p < |o.pages| ensures HeldOf(o.pages[p], 1) == 0 {
        assert CompleteAt(o, p, 0);
      }
      HeldNothing(o.pages, 1);
      assert forall p :: 0 <= p < |t.pages| ==> t.pages[p] == Page(1, {}, false) && HeldOf(t.pages[p], 1) == 0;
      HeldNothing(t.pages, 1);
    }
  }

  lemma TakenHeld(o: Object, m: Msg, host: Host)
    requires m.Packet? && Wanted(o, m) && Missing(o, m.page)
    ensures Held(TakePacket(o, m, host.crc).pages, 1)
            == Held(o.pages, 1) + if Intact(m, host) && m.number !in o.pages[m.page].packets then 1 else 0
  {
    var t := TakePacket(o, m, host.crc);
    PacketCount(o.pages[m.page].packets, m.number);
    HeldUpdate(o.pages, m.page, t.pages[m.page], 1);
    assert t.pages == o.pages[m.page := t.pages[m.page]];
  }

  lemma PacketCount(packets: set<PacketNo>, k: PacketNo)
    ensures |packets + {k}| == |packets| + if k in packets then 0 else 1
    ensures packets + {k} == ALL_PACKETS ==> |packets + {k}| == N_PKT
  {
    if k in packets {
      assert packets + {k} == packets;
    }
  }
}
