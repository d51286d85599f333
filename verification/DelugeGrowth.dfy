/** A Deluge update that adds pages: the new pages are given version 0, and no packet of the update
    matches them. */
module DelugeGrowth {
  import opened Common
  import opened Deluge
  import opened DelugeRuns
  import opened DelugeShape
  import opened DelugeSpread

  /** Every node starts with a complete file of its own version and length. */
  function Start(versions: seq<nat>, files: seq<seq<PageData>>, buffers: seq<PageData>): World
    requires |versions| == |files| == |buffers|
  {
    World(seq(|versions|, i requires 0 <= i < |versions| => Fresh(versions[i], files[i], buffers[i])), {})
  }

  // ----- the added pages never get the version of the update -----

  /** A node that started with version 0 and `n` pages has version 0 for all pages behind these. */
  ghost predicate Grown(o: Object, start: nat, n: nat) {
    && o.pages != []
    && (start == 0 ==>
          && o.version <= o.updateVersion <= 1 && (o.updateVersion == 0 ==> |o.pages| == n)
          && forall p :: n <= p < |o.pages| ==> o.pages[p].version == 0)
    && (start > 0 ==> o.version == o.updateVersion == o.pages[0].version == start)
  }

  predicate MsgFits(m: Msg) {
    m.Profile? ==> m.versions != [] && (m.version >= 2 ==> m.versions[0] >= 2)
  }

  ghost predicate AllGrown(w: World, versions: seq<nat>, files: seq<seq<PageData>>)
    requires |versions| == |files|
  {
    && |w.nodes| == |versions|
    && (forall i :: 0 <= i < |versions| ==> Grown(w.nodes[i].obj, versions[i], |files[i]|))
    && (forall m :: m in w.net ==> MsgFits(m))
  }

  lemma NodeGrows(s: State, start: nat, n: nat, e: Event, host: Host)
    requires Grown(s.obj, start, n) && (e.Deliver? ==> MsgFits(e.m))
    ensures Grown(Act(s, e, host).0.obj, start, n)
  {
    var o, t := s.obj, Act(s, e, host).0.obj;
    Effect(s, e, host);
    if !TakesPacket(o, e) && t.updateVersion != o.updateVersion {
      LongEnoughIff(e.m.versions, host.room);
      assert t.pages == ProfiledPages(o.pages, e.m.versions);
    }
  }

  lemma SentFits(s: State, start: nat, n: nat, e: Event, m: Msg, host: Host)
    requires Grown(s.obj, start, n) && m in Act(s, e, host).1
    ensures MsgFits(m)
  {
  }

  lemma {:induction false} AllGrow(w: World, versions: seq<nat>, files: seq<seq<PageData>>, run: seq<(nat, Event)>,
                                   host: Host)
    requires |versions| == |files| && AllGrown(w, versions, files)
    ensures AllGrown(After(w, run, host), versions, files)
  {
    if run != [] {
      var n := |run| - 1;
      AllGrow(w, versions, files, run[..n], host);
      var v, at, e := After(w, run[..n], host), run[n].0, run[n].1;
      if Happens(v, at, e, host) {
        NodeGrows(v.nodes[at], versions[at], |files[at]|, e, host);
        forall m | m in Act(v.nodes[at], e, host).1 ensures MsgFits(m) {
          SentFits(v.nodes[at], versions[at], |files[at]|, e, m, host);
        }
      }
    }
  }

  /** An update that adds pages is never complete: in no run, of any kind, does a node with fewer
      pages come to have all of a version above 0. */
  lemma GrowthNeverComplete(versions: seq<nat>, files: seq<seq<PageData>>, buffers: seq<PageData>, host: Host,
                            run: seq<(nat, Event)>, i: nat, c: Contents, version: nat)
    requires |versions| == |files| == |buffers| && forall k :: 0 <= k < |files| ==> files[k] != []
    requires i < |versions| && versions[i] == 0 && |files[i]| < c.pages && version > 0
    ensures var w := After(Start(versions, files, buffers), run, host);
            |w.nodes| == |versions| && !c.HasAll(w.nodes[i].obj, version)
  {
    AllGrow(Start(versions, files, buffers), versions, files, run, host);
    var o := After(Start(versions, files, buffers), run, host).nodes[i].obj;
    assert !c.HasPage(o, version, |files[i]|);
  }

  // ----- and yet a node can take itself to be complete -----

  /** A node takes the packets of its current page, from number `n` on. */
  lemma {:induction false} Take(w: World, x: nat, n: nat, data: PageData, host: Host) returns (v: World)
    requires x < |w.nodes| && n < N_PKT && var o := w.nodes[x].obj;
             && o.rxPage < |o.pages| && !o.pages[o.rxPage].complete && o.pages[o.rxPage].packets == FirstPackets(n)
             && (forall k :: 0 <= k < n ==> o.buffer[k] == data[k])
             && forall k: PacketNo ::
                  Packet(o.pages[o.rxPage].version, o.rxPage, k, host.crc(data[k]), data[k]) in w.net
    ensures Leads(w, v, host) && OnlyAt(x, w, v)
    ensures var o, t := w.nodes[x].obj, v.nodes[x].obj;
            && t.pages == o.pages[o.rxPage := Page(o.pages[o.rxPage].version, ALL_PACKETS, true)]
            && t.rxPage == o.rxPage + 1 && t.updateVersion == o.updateVersion
            && t.version == if o.rxPage == |o.pages| - 1 then o.updateVersion else o.version
    decreases N_PKT - n
  {
    var o := w.nodes[x].obj;
    var m := Packet(o.pages[o.rxPage].version, o.rxPage, n, host.crc(data[n]), data[n]);
    LeadsNowhere(w, host);
    LeadsStep(w, w, x, Deliver(m, true), host);
    v := Step(w, x, Deliver(m, true), host);
    assert v.nodes[x].obj == TakePacket(o, m, host.crc);
    assert FirstPackets(n) + {m.number} == FirstPackets(n + 1);
    if n + 1 < N_PKT {
      assert (n + 1) as PacketNo !in FirstPackets(n + 1);
      var w1 := v;
      v := Take(w1, x, n + 1, data, host);
      LeadsOn(w, w1, v, host);
    }
  }

  /** A node that has a newer page adopts a longer profile. */
  lemma Hear(w: World, x: nat, host: Host) returns (v: World)
    requires x < |w.nodes| && Profile(1, [1, 1]) in w.net && var o := w.nodes[x].obj;
             o.version == o.updateVersion == 0 && o.pages == [Page(0, ALL_PACKETS, true)]
    ensures Leads(w, v, host) && OnlyAt(x, w, v) && v.net == w.net
    ensures var t := v.nodes[x].obj;
            && t.version == 0 && t.updateVersion == 1 && t.rxPage == 0
            && t.pages == [Page(1, {}, false), Page(0, {}, false)]
  {
    LongEnoughIff([1, 1], host.room);
    LeadsNowhere(w, host);
    LeadsStep(w, w, x, Deliver(Profile(1, [1, 1]), true), host);
    v := Step(w, x, Deliver(Profile(1, [1, 1]), true), host);
    FirstMissingIs(v.nodes[x].obj.pages, 0);
  }

  /** The nodes 0 and 1 have a page of version 0, the node 2 two pages of version 1. */
  function TwoAndOne(before: PageData, first: PageData, second: PageData, buffers: seq<PageData>): World
    requires |buffers| == 3
  {
    Start([0, 0, 1], [[before], [before], [first, second]], buffers)
  }

  /** Both hear of the update. */
  lemma BothHear(w: World, host: Host) returns (v: World)
    requires |w.nodes| == 3 && (forall i :: 0 <= i < 2 ==> w.nodes[i].obj.version == w.nodes[i].obj.updateVersion == 0)
    requires (forall i :: 0 <= i < 2 ==> w.nodes[i].obj.pages == [Page(0, ALL_PACKETS, true)])
    requires var o := w.nodes[2].obj;
             o.version == o.updateVersion == 1 && o.pages == [Page(1, ALL_PACKETS, true), Page(1, ALL_PACKETS, true)]
    ensures Leads(w, v, host) && |v.nodes| == 3 && v.nodes[2].obj == w.nodes[2].obj && Summary(1, 2) in v.net
    ensures forall i :: 0 <= i < 2 ==> var t := v.nodes[i].obj;
              && t.version == 0 && t.updateVersion == 1 && t.rxPage == 0
              && t.pages == [Page(1, {}, false), Page(0, {}, false)]
  {
    FirstMissingIs(w.nodes[0].obj.pages, 1);
    FirstMissingIs(w.nodes[2].obj.pages, 2);
    var w1 := Announce(w, 0, host);
    var w2 := Announce(w1, 2, host);
    LeadsOn(w, w1, w2, host);
    var w3 := Provoke(w2, 2, Summary(0, 1), host);
    LeadsOn(w, w2, w3, host);
    assert Versions(w2.nodes[2].obj.pages) == [1, 1];
    var w4 := Hear(w3, 0, host);
    LeadsOn(w, w3, w4, host);
    v := Hear(w4, 1, host);
    LeadsOn(w, w4, v, host);
  }

  /** Both receive the page that they had before. */
  lemma BothReceive(w: World, host: Host) returns (v: World)
    requires |w.nodes| == 3 && Summary(1, 2) in w.net
    requires forall i :: 0 <= i < 2 ==> var t := w.nodes[i].obj;
              && t.version == 0 && t.updateVersion == 1 && t.rxPage == 0
              && t.pages == [Page(1, {}, false), Page(0, {}, false)]
    requires var o := w.nodes[2].obj;
             o.version == o.updateVersion == 1 && o.pages == [Page(1, ALL_PACKETS, true), Page(1, ALL_PACKETS, true)]
    ensures Leads(w, v, host) && |v.nodes| == 3 && Summary(1, 2) in v.net
    ensures forall i :: 0 <= i < 2 ==> var t := v.nodes[i].obj;
              && t.version == 0 && t.updateVersion == 1 && t.rxPage == 1
              && t.pages == [Page(1, ALL_PACKETS, true), Page(0, {}, false)]
  {
    FirstMissingIs(w.nodes[0].obj.pages, 0);
    FirstMissingIs(w.nodes[2].obj.pages, 2);
    assert FirstPackets(0) == {};
    var w1, asked := Ask(w, 0, host);
    var w2 := Serve(w1, 2, 0, asked, host);
    LeadsOn(w, w1, w2, host);
    var data := ReadPage(w1.nodes[2].obj.file, 0);
    var w3 := Take(w2, 0, 0, data, host);
    LeadsOn(w, w2, w3, host);
    v := Take(w3, 1, 0, data, host);
    LeadsOn(w, w3, v, host);
  }

  /** Then the one asks for the page that was added, under version 0, and the other, which still has
      version 0, sends what it finds behind the end of its file. The first one completes the page
      with that. */
  lemma OneReceives(w: World, host: Host) returns (v: World)
    requires |w.nodes| == 3 && Summary(1, 2) in w.net
    requires forall i :: 0 <= i < 2 ==> var t := w.nodes[i].obj;
              && t.version == 0 && t.updateVersion == 1 && t.rxPage == 1
              && t.pages == [Page(1, ALL_PACKETS, true), Page(0, {}, false)]
    ensures Leads(w, v, host) && |v.nodes| == 3 && var o := v.nodes[0].obj;
            && o.version == o.updateVersion == 1
            && o.pages == [Page(1, ALL_PACKETS, true), Page(0, {}, false)][1 := Page(0, ALL_PACKETS, true)]
  {
    FirstMissingIs(w.nodes[0].obj.pages, 1);
    FirstMissingIs(w.nodes[1].obj.pages, 1);
    assert FirstPackets(0) == {};
    var w1, asked := Ask(w, 0, host);
    var w2 := Serve(w1, 1, 1, asked, host);
    LeadsOn(w, w1, w2, host);
    v := Take(w2, 0, 0, ReadPage(w1.nodes[1].obj.file, 1), host);
    LeadsOn(w, w2, v, host);
  }

  /** So a node can take the version of an update that adds a page, though its new page has version
      0 and no bytes of the update. */
  lemma TakesItselfForComplete(before: PageData, first: PageData, second: PageData, buffers: seq<PageData>, host: Host)
      returns (v: World)
    requires |buffers| == 3
    ensures Leads(TwoAndOne(before, first, second, buffers), v, host) && |v.nodes| == 3
    ensures var o := v.nodes[0].obj; o.version == o.updateVersion == 1 && |o.pages| == 2 && o.pages[1].version == 0
  {
    var w := TwoAndOne(before, first, second, buffers);
    assert forall i :: 0 <= i < 2 ==> w.nodes[i].obj.pages == [Page(0, ALL_PACKETS, true)];
    assert w.nodes[2].obj.pages == [Page(1, ALL_PACKETS, true), Page(1, ALL_PACKETS, true)];
    var w1 := BothHear(w, host);
    var w2 := BothReceive(w1, host);
    LeadsOn(w, w1, w2, host);
    v := OneReceives(w2, host);
    LeadsOn(w, w2, v, host);
  }
}
