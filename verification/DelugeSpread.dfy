/** Deluge runs that get somewhere: which versions can reach which nodes, and how a damaged
    packet gets into a page. */
module DelugeSpread {
  import opened Common
  import opened Deluge
  import opened DelugeRuns
  import opened DelugeShape
  import opened DelugeAgreement

  // ----- putting runs together -----

  lemma {:induction false} AfterSplit(w: World, a: seq<(nat, Event)>, b: seq<(nat, Event)>, host: Host)
    ensures After(w, a + b, host) == After(After(w, a, host), b, host)
  {
    if b == [] {
      assert a + b == a;
    } else {
      var n := |b| - 1;
      assert (a + b)[..|a + b| - 1] == a + b[..n];
      AfterSplit(w, a, b[..n], host);
    }
  }

  lemma AfterOne(w: World, x: (nat, Event), host: Host)
    ensures After(w, [x], host) == Step(w, x.0, x.1, host)
  {
    assert [x][..0] == [];
  }

  /** A run without damage leads from one world to the other. */
  ghost predicate Leads(w: World, v: World, host: Host) {
    exists run :: Undamaged(run) && After(w, run, host) == v
  }

  lemma LeadsNowhere(w: World, host: Host)
    ensures Leads(w, w, host)
  {
    assert Undamaged([]) && After(w, [], host) == w;
  }

  lemma LeadsOn(a: World, b: World, c: World, host: Host)
    requires Leads(a, b, host) && Leads(b, c, host)
    ensures Leads(a, c, host)
  {
    var x :| Undamaged(x) && After(a, x, host) == b;
    var y :| Undamaged(y) && After(b, y, host) == c;
    AfterSplit(a, x, y, host);
    assert Undamaged(x + y);
  }

  lemma LeadsStep(w: World, v: World, at: nat, e: Event, host: Host)
    requires Leads(w, v, host) && !e.Damage?
    ensures Leads(w, Step(v, at, e, host), host)
  {
    AfterOne(v, (at, e), host);
    assert Undamaged([(at, e)]);
    LeadsOn(w, v, Step(v, at, e, host), host);
  }

  /** All nodes but one are as before, and nothing that was sent is gone. */
  predicate OnlyAt(x: nat, w: World, v: World) {
    |v.nodes| == |w.nodes| && w.net <= v.net && forall i :: 0 <= i < |w.nodes| && i != x ==> v.nodes[i] == w.nodes[i]
  }

  // ----- the handlers in turn -----

  lemma Announce(w: World, x: nat, host: Host) returns (v: World)
    requires x < |w.nodes|
    ensures Leads(w, v, host) && OnlyAt(x, w, v) && v.nodes[x].obj == w.nodes[x].obj
    ensures Summary(w.nodes[x].obj.updateVersion, w.nodes[x].obj.Highest()) in v.net
  {
    LeadsNowhere(w, host);
    LeadsStep(w, w, x, Round, host);
    var w1 := Step(w, x, Round, host);
    LeadsStep(w, w1, x, SummaryTimer, host);
    v := Step(w1, x, SummaryTimer, host);
  }

  /** A round in which a node reacts to the announcement of an older version. */
  lemma Provoke(w: World, x: nat, summary: Msg, host: Host) returns (v: World)
    requires x < |w.nodes| && summary in w.net && summary.Summary? && summary.version < w.nodes[x].obj.version
    ensures Leads(w, v, host) && OnlyAt(x, w, v) && v.nodes[x].obj == w.nodes[x].obj
    ensures Profile(w.nodes[x].obj.version, Versions(w.nodes[x].obj.pages)) in v.net
  {
    LeadsNowhere(w, host);
    LeadsStep(w, w, x, Round, host);
    var w1 := Step(w, x, Round, host);
    LeadsStep(w, w1, x, Deliver(summary, true), host);
    var w2 := Step(w1, x, Deliver(summary, true), host);
    LeadsStep(w, w2, x, ProfileTimer, host);
    v := Step(w2, x, ProfileTimer, host);
  }

  /** A node asks for the packets of its current page that it does not hold. */
  lemma Ask(w: World, x: nat, host: Host) returns (v: World, asked: PacketBits)
    requires x < |w.nodes| && w.nodes[x].obj.Highest() == w.nodes[x].obj.rxPage < |w.nodes[x].obj.pages|
    requires Summary(w.nodes[x].obj.updateVersion, |w.nodes[x].obj.pages|) in w.net
    ensures Leads(w, v, host) && OnlyAt(x, w, v)
            && v.nodes[x].obj == w.nodes[x].obj.(requests := v.nodes[x].obj.requests)
    ensures var o := w.nodes[x].obj;
            && Request(o.pages[o.rxPage].version, o.rxPage, asked) in v.net
            && forall k: PacketNo :: k in asked <==> k !in o.pages[o.rxPage].packets
  {
    var e := Deliver(Summary(w.nodes[x].obj.updateVersion, |w.nodes[x].obj.pages|), false);
    LeadsNowhere(w, host);
    LeadsStep(w, w, x, e, host);
    var w1 := Step(w, x, e, host);
    assert w1.nodes[x].timers.rx && w1.nodes[x].obj == w.nodes[x].obj;
    LeadsStep(w, w1, x, RxTimer(0, {}), host);
    v := Step(w1, x, RxTimer(0, {}), host);
    asked := RequestOf(w1.nodes[x].obj, 0, {}).packets;
  }

  /** A node serves packets of a page of its version. */
  lemma Serve(w: World, x: nat, p: nat, asked: PacketBits, host: Host) returns (v: World)
    requires x < |w.nodes| && var o := w.nodes[x].obj;
             p < |o.pages| && p < TX_PAGES && p <= o.Highest() && o.pages[p].version == o.version
                 && Request(o.version, p, asked) in w.net
    ensures Leads(w, v, host) && OnlyAt(x, w, v)
    ensures v.nodes[x].obj == w.nodes[x].obj.(txPage := v.nodes[x].obj.txPage, txSet := v.nodes[x].obj.txSet)
    ensures var data := ReadPage(w.nodes[x].obj.file, p);
            forall k: PacketNo :: k in asked ==>
                Packet(w.nodes[x].obj.version, p, k, host.crc(data[k]), data[k]) in v.net
  {
    var o := w.nodes[x].obj;
    var e, data := Deliver(Request(o.version, p, asked), true), ReadPage(o.file, p);
    LeadsNowhere(w, host);
    LeadsStep(w, w, x, e, host);
    var w1 := Step(w, x, e, host);
    var o1 := w1.nodes[x].obj;
    assert o1.txPage == p && asked <= o1.txSet && o1.pages == o.pages && o1.file == o.file;
    LeadsStep(w, w1, x, TxTimer, host);
    v := Step(w1, x, TxTimer, host);
    forall k: PacketNo | k in asked ensures Packet(o.version, p, k, host.crc(data[k]), data[k]) in v.net {
      assert k in ALL_PACKETS && k in o1.txSet;
      assert Packet(o.version, p, k, host.crc(data[k]), data[k]) in PagePackets(o1, p, host.crc);
    }
  }

  /** A node that starts with version 0 hears of version 1. */
  lemma Inform(net: Network, w: World, i: nat, j: nat) returns (v: World)
    requires net.Inv(w) && net.pages > 0 && i < |net.versions| && j < |net.versions|
    requires net.versions[i] == 0 && net.versions[j] == 1 && net.Still(w.nodes[i].obj, 0)
    requires PROFILE_HEADER + net.pages <= net.host.room
    ensures Leads(w, v, net.host) && net.Inv(v) && net.Starting(v.nodes[i].obj) && net.Receiving(v.nodes[i].obj)
    ensures Summary(1, net.pages) in v.net
  {
    net.HighestOf(w.nodes[i].obj, 0);
    net.HighestOf(w.nodes[j].obj, 1);
    var w1 := Announce(w, i, net.host);
    var w2 := Announce(w1, j, net.host);
    LeadsOn(w, w1, w2, net.host);
    var w3 := Provoke(w2, j, Summary(0, net.pages), net.host);
    LeadsOn(w, w2, w3, net.host);
    LeadsKeeps(net, w, w3);
    var e := Deliver(Profile(1, Versions(w.nodes[j].obj.pages)), true);
    LeadsStep(w, w3, i, e, net.host);
    v := Step(w3, i, e, net.host);
    net.ProfileKeeps(w3.nodes[i], 0, 1, e.m.versions, true);
    StartsUpdateIff(w3.nodes[i], 1, e.m.versions, true, net.host);
    assert CompleteAt(w.nodes[j].obj, 0, 1);
    LeadsKeeps(net, w, v);
  }

  lemma LeadsKeeps(net: Network, w: World, v: World)
    requires net.Inv(w) && net.pages > 0 && Leads(w, v, net.host)
    ensures net.Inv(v)
  {
    var run :| Undamaged(run) && After(w, run, net.host) == v;
    net.RunKeeps(w, run);
  }

  /** A node is receiving page `p`, and holds some packets of it. */
  ghost predicate Holding(net: Network, o: Object, p: nat, held: set<PacketNo>) {
    net.Receiving(o) && o.rxPage == p && o.pages[p].packets == held
  }

  /** The packets of a page that are not held have been sent. */
  predicate PacketsOut(w: World, p: nat, held: set<PacketNo>, data: PageData, host: Host) {
    forall k: PacketNo :: k in held || Packet(1, p, k, host.crc(data[k]), data[k]) in w.net
  }

  /** A node that has all of version 1 keeps it. */
  lemma StaysStill(net: Network, w: World, j: nat)
    requires net.Inv(w) && j < |net.versions| && w.nodes[j].obj.version == 1
    ensures net.Still(w.nodes[j].obj, 1)
  {
    assert net.Phase(w.nodes[j].obj, net.versions[j]);
  }

  /** Whatever has got lost: a node asks a neighbour for the packets that it does not hold, and
      they are sent. */
  lemma Fetch(net: Network, w: World, i: nat, j: nat, p: nat, held: set<PacketNo>) returns (v: World)
    requires net.Inv(w) && net.pages > 0 && i < |net.versions| && j < |net.versions|
    requires Holding(net, w.nodes[i].obj, p, held) && p < TX_PAGES && w.nodes[j].obj.version == 1
    ensures Leads(w, v, net.host) && net.Inv(v) && w.net <= v.net && v.nodes[j].obj.version == 1
    ensures Holding(net, v.nodes[i].obj, p, held) && v.nodes[i].obj.buffer == w.nodes[i].obj.buffer
    ensures PacketsOut(v, p, held, ReadPage(w.nodes[j].obj.file, p), net.host)
  {
    StaysStill(net, w, j);
    net.HighestOf(w.nodes[i].obj, net.versions[i]);
    net.HighestOf(w.nodes[j].obj, net.versions[j]);
    assert Missing(w.nodes[i].obj, p) && CompleteAt(w.nodes[j].obj, p, 1);
    var w1 := Announce(w, j, net.host);
    var w2, asked := Ask(w1, i, net.host);
    LeadsOn(w, w1, w2, net.host);
    v := Serve(w2, j, p, asked, net.host);
    LeadsOn(w, w2, v, net.host);
    LeadsKeeps(net, w, v);
    net.HighestOf(v.nodes[i].obj, net.versions[i]);
  }

  /** What node `i` has once page `p` has been completed. */
  ghost predicate Filled(net: Network, o: Object, p: nat, held: set<PacketNo>, buffer: PageData, data: PageData) {
    && CompleteAt(o, p, 1) && p < |o.file|
    && (forall k: PacketNo :: o.file[p][k] == if k in held then buffer[k] else data[k])
    && if p + 1 < net.pages then Holding(net, o, p + 1, {}) else net.Still(o, 1)
  }

  /** A packet that was missing arrives. */
  lemma OneArrives(net: Network, w: World, i: nat, p: nat, n: PacketNo, held: set<PacketNo>, data: PageData)
      returns (v: World)
    requires net.Inv(w) && net.pages > 0 && i < |net.versions| && Holding(net, w.nodes[i].obj, p, held) && n !in held
    requires PacketsOut(w, p, held, data, net.host)
    ensures Leads(w, v, net.host) && net.Inv(v) && OnlyAt(i, w, v)
    ensures PacketsOut(v, p, held + {n}, data, net.host)
    ensures var b := w.nodes[i].obj.buffer[n := data[n]];
            if held + {n} != ALL_PACKETS
            then Holding(net, v.nodes[i].obj, p, held + {n}) && v.nodes[i].obj.buffer == b
            else Filled(net, v.nodes[i].obj, p, ALL_PACKETS, b, data)
  {
    var o := w.nodes[i].obj;
    var m := Packet(1, p, n, net.host.crc(data[n]), data[n]);
    assert Missing(o, p);
    LeadsNowhere(w, net.host);
    LeadsStep(w, w, i, Deliver(m, true), net.host);
    v := Step(w, i, Deliver(m, true), net.host);
    LeadsKeeps(net, w, v);
    assert v.nodes[i].obj == TakePacket(o, m, net.host.crc);
    net.PacketTaken(o, m);
    assert p + 1 < net.pages ==> Missing(o, p + 1);
  }

  function FirstPackets(n: nat): set<PacketNo> {
    set k | k in ALL_PACKETS && k < n
  }

  lemma NextPacket(n: nat, held: set<PacketNo>)
    requires n < N_PKT && FirstPackets(n) <= held != ALL_PACKETS
    ensures FirstPackets(n + 1) <= held + {n}
    ensures held + {n} != ALL_PACKETS ==> n + 1 < N_PKT
  {
    if n == 3 {
      assert 0 in FirstPackets(3) && 1 in FirstPackets(3) && 2 in FirstPackets(3);
    }
  }

  /** The packets of a page that are missing, from number `n` on, arrive. */
  lemma {:induction false} Fill(net: Network, w: World, i: nat, p: nat, n: nat, held: set<PacketNo>, data: PageData)
      returns (v: World)
    requires net.Inv(w) && net.pages > 0 && i < |net.versions| && Holding(net, w.nodes[i].obj, p, held)
    requires n < N_PKT && FirstPackets(n) <= held && PacketsOut(w, p, held, data, net.host)
    ensures Leads(w, v, net.host) && net.Inv(v) && OnlyAt(i, w, v)
    ensures Filled(net, v.nodes[i].obj, p, held, w.nodes[i].obj.buffer, data)
    decreases N_PKT - n
  {
    assert Missing(w.nodes[i].obj, p);
    NextPacket(n, held);
    if n in held {
      assert held + {n} == held;
      v := Fill(net, w, i, p, n + 1, held, data);
    } else {
      var w1 := OneArrives(net, w, i, p, n, held, data);
      v := w1;
      if held + {n} != ALL_PACKETS {
        v := Fill(net, w1, i, p, n + 1, held + {n}, data);
        LeadsOn(w, w1, v, net.host);
      }
    }
  }

  /** The rest of the current page and all pages behind it arrive. */
  lemma {:induction false} Finish(net: Network, w: World, i: nat, j: nat, p: nat, held: set<PacketNo>)
      returns (v: World)
    requires net.Inv(w) && i < |net.versions| && j < |net.versions| && net.pages <= TX_PAGES
    requires Holding(net, w.nodes[i].obj, p, held) && w.nodes[j].obj.version == 1
    ensures Leads(w, v, net.host) && net.Inv(v) && net.Still(v.nodes[i].obj, 1)
    decreases net.pages - p
  {
    var w1 := Fetch(net, w, i, j, p, held);
    assert FirstPackets(0) == {};
    var w2 := Fill(net, w1, i, p, 0, held, ReadPage(w.nodes[j].obj.file, p));
    LeadsOn(w, w1, w2, net.host);
    v := w2;
    if p + 1 < net.pages {
      v := Finish(net, w2, i, j, p + 1, {});
      LeadsOn(w, w2, v, net.host);
    }
  }

  /** Loss is repaired: a node that is receiving the update, whatever it holds of it, can get the
      rest from any node that has all of it, even when every message sent so far is lost. */
  lemma LossRepaired(net: Network, w: World, i: nat, j: nat) returns (v: World)
    requires net.Inv(w) && i < |net.versions| && j < |net.versions| && net.pages <= TX_PAGES
    requires net.Receiving(w.nodes[i].obj) && net.Still(w.nodes[j].obj, 1)
    ensures Leads(World(w.nodes, {}), v, net.host) && net.Inv(v) && net.Still(v.nodes[i].obj, 1)
  {
    var o := w.nodes[i].obj;
    v := Finish(net, World(w.nodes, {}), i, j, o.rxPage, o.pages[o.rxPage].packets);
  }

  /** From every world that a run of any kind can lead to, each node that started with version 0 can
      still get all pages of version 1, if some node started with it. */
  lemma CanAlwaysFinish(net: Network, w: World, i: nat, j: nat) returns (v: World)
    requires net.Inv(w) && i < |net.versions| && j < |net.versions| && 0 < net.pages <= MaxPages(net.host)
    requires net.versions[i] == 0 && net.versions[j] == 1
    ensures Leads(World(w.nodes, {}), v, net.host) && net.Inv(v) && net.Still(v.nodes[i].obj, 1)
  {
    var start := World(w.nodes, {});
    assert net.Phase(w.nodes[i].obj, 0) && net.Phase(w.nodes[j].obj, 1);
    if net.Still(w.nodes[i].obj, 0) {
      var w1 := Inform(net, start, i, j);
      assert net.Phase(w1.nodes[j].obj, 1);
      v := Finish(net, w1, i, j, 0, {});
      LeadsOn(start, w1, v, net.host);
    } else if net.Receiving(w.nodes[i].obj) {
      v := LossRepaired(net, w, i, j);
    } else {
      v := start;
      LeadsNowhere(start, net.host);
    }
  }

  // ----- which versions spread -----

  /** The pages that an update can have: their numbers fit into seven bits, and the profile into the
      packet buffer. */
  function MaxPages(host: Host): nat {
    Min(TX_PAGES, host.room - PROFILE_HEADER)
  }

  /** Whether there is anything to update. */
  predicate CanUpdate(d: Dissemination) {
    0 in d.versions && 1 in d.versions && PROFILE_HEADER + d.c.pages <= d.host.room
  }

  ghost predicate Gets(d: Dissemination, buffers: seq<PageData>, i: nat, version: nat)
    requires |buffers| == |d.versions|
  {
    exists run :: i < |After(Initial(d.versions, d.c, buffers), run, d.host).nodes|
                  && d.c.HasAll(After(Initial(d.versions, d.c, buffers), run, d.host).nodes[i].obj, version)
  }

  lemma CompleteRun(d: Dissemination, buffers: seq<PageData>, i: nat, j: nat) returns (v: World)
    requires |buffers| == |d.versions| && d.c.pages > 0 && i < |d.versions| && j < |d.versions|
    requires d.versions[i] == 0 && d.versions[j] == 1 && d.c.pages <= MaxPages(d.host)
    ensures Leads(Initial(d.versions, d.c, buffers), v, d.host) && d.Net().Inv(v) && d.Net().Still(v.nodes[i].obj, 1)
  {
    d.Net().InitialOk(d.c, buffers);
    v := CanAlwaysFinish(d.Net(), Initial(d.versions, d.c, buffers), i, j);
  }

  /** So after any run, with damage and loss, nothing that has happened keeps the update away. */
  lemma AnyRunCanFinish(d: Dissemination, buffers: seq<PageData>, run: seq<(nat, Event)>, i: nat, j: nat)
      returns (v: World)
    requires |buffers| == |d.versions| && 0 < d.c.pages <= MaxPages(d.host) && i < |d.versions| && j < |d.versions|
    requires d.versions[i] == 0 && d.versions[j] == 1
    ensures Leads(World(After(Initial(d.versions, d.c, buffers), run, d.host).nodes, {}), v, d.host)
    ensures d.Net().Inv(v) && d.Net().Still(v.nodes[i].obj, 1)
  {
    d.Net().InitialOk(d.c, buffers);
    d.Net().RunKeeps(Initial(d.versions, d.c, buffers), run);
    v := CanAlwaysFinish(d.Net(), After(Initial(d.versions, d.c, buffers), run, d.host), i, j);
  }

  /** What intact runs lead to is right. */
  lemma LeadsRight(d: Dissemination, buffers: seq<PageData>, v: World)
    requires |buffers| == |d.versions| && d.c.pages > 0 && Leads(Initial(d.versions, d.c, buffers), v, d.host)
    ensures d.AllAgree(v)
  {
    var w := Initial(d.versions, d.c, buffers);
    var run :| Undamaged(run) && After(w, run, d.host) == v;
    d.Net().InitialOk(d.c, buffers);
    d.InitialRight(buffers);
    UndamagedClean(d, w, run);
    d.AgreesIffClean(buffers, run);
  }

  /** A node can come to have all of a version, in a run of any kind, iff it starts with that
      version, or it starts with version 0, the version is 1, some node starts with it, and it has
      no more pages than an update can have: 124 with the default packet buffer. */
  lemma GetsIff(d: Dissemination, buffers: seq<PageData>, i: nat, version: nat)
    requires |buffers| == |d.versions| && d.c.pages > 0 && i < |d.versions|
    ensures Gets(d, buffers, i, version) <==>
            || version == d.versions[i]
            || (d.versions[i] == 0 && version == 1 && 1 in d.versions && d.c.pages <= MaxPages(d.host))
  {
    var w := Initial(d.versions, d.c, buffers);
    d.Net().InitialOk(d.c, buffers);
    if Gets(d, buffers, i, version) {
      var run :| i < |After(w, run, d.host).nodes| && d.c.HasAll(After(w, run, d.host).nodes[i].obj, version);
      d.Net().RunKeeps(w, run);
      var o := After(w, run, d.host).nodes[i].obj;
      assert d.c.HasPage(o, version, 0);
      assert d.Net().Receiving(o) ==> Missing(o, o.rxPage) && !d.c.HasPage(o, version, o.rxPage);
      assert d.Net().Still(o, d.versions[i]) ==> CompleteAt(o, 0, d.versions[i]);
      assert d.Net().Still(o, 1) ==> CompleteAt(o, 0, 1);
    }
    if version == d.versions[i] {
      assert forall p :: 0 <= p < d.c.pages ==> d.c.HasPage(w.nodes[i].obj, version, p);
      assert After(w, [], d.host) == w && d.c.HasAll(After(w, [], d.host).nodes[i].obj, version);
    } else if d.versions[i] == 0 && version == 1 && 1 in d.versions && d.c.pages <= MaxPages(d.host) {
      GetsUpdate(d, buffers, i);
    }
  }

  lemma GetsUpdate(d: Dissemination, buffers: seq<PageData>, i: nat)
    requires |buffers| == |d.versions| && 0 < d.c.pages <= MaxPages(d.host) && i < |d.versions| && d.versions[i] == 0
             && 1 in d.versions
    ensures Gets(d, buffers, i, 1)
  {
    var j :| 0 <= j < |d.versions| && d.versions[j] == 1;
    var v := CompleteRun(d, buffers, i, j);
    LeadsRight(d, buffers, v);
    var run :| Undamaged(run) && After(Initial(d.versions, d.c, buffers), run, d.host) == v;
    forall p | 0 <= p < d.c.pages ensures d.c.HasPage(v.nodes[i].obj, 1, p) {
      assert CompleteAt(v.nodes[i].obj, p, 1);
    }
  }

  // ----- what a damaged packet can do -----

  /** A node that starts with version 0 is sent its first page; after its packet 0 the node
      receives a damaged copy of it, and completes the page with the damaged bytes. */
  lemma DamagedRun(d: Dissemination, buffers: seq<PageData>, i: nat, j: nat, payload: Payload)
      returns (run: seq<(nat, Event)>)
    requires |buffers| == |d.versions| && d.c.pages > 0 && i < |d.versions| && j < |d.versions|
    requires d.versions[i] == 0 && d.versions[j] == 1 && PROFILE_HEADER + d.c.pages <= d.host.room
    requires d.host.crc(payload) != d.host.crc(d.c.image(1)(0)[0])
    ensures var v := After(Initial(d.versions, d.c, buffers), run, d.host);
            && |v.nodes| == |d.versions| && var o := v.nodes[i].obj;
            CompleteAt(o, 0, 1) && 0 < |o.file| && o.file[0][0] == payload != d.c.image(1)(0)[0] && WrongPage(d.c, o, 0)
  {
    var net, host, w, data := d.Net(), d.host, Initial(d.versions, d.c, buffers), d.c.image(1)(0);
    net.InitialOk(d.c, buffers);
    assert forall p :: 0 <= p < net.pages ==> CompleteAt(w.nodes[i].obj, p, 0);
    var w1 := Inform(net, w, i, j);
    LeadsRight(d, buffers, w1);
    assert CompleteAt(w1.nodes[j].obj, 0, 1) && d.c.HasPage(w1.nodes[j].obj, 1, 0);
    assert net.Phase(w1.nodes[j].obj, 1);
    var w2 := Fetch(net, w1, i, j, 0, {});
    LeadsOn(w, w1, w2, host);
    var before :| Undamaged(before) && After(w, before, host) == w2;
    var after := DamagedPage(net, w2, i, data, payload);
    run := before + after;
    AfterSplit(w, before, after, host);
  }

  lemma DamagedPage(net: Network, w: World, i: nat, data: PageData, payload: Payload)
      returns (run: seq<(nat, Event)>)
    requires net.Inv(w) && net.pages > 0 && i < |net.versions| && Holding(net, w.nodes[i].obj, 0, {})
             && PacketsOut(w, 0, {}, data, net.host)
    requires net.host.crc(payload) != net.host.crc(data[0])
    ensures var v := After(w, run, net.host);
            && |v.nodes| == |w.nodes| && var o := v.nodes[i].obj;
            CompleteAt(o, 0, 1) && 0 < |o.file| && o.file[0][0] == payload
  {
    var m := Packet(1, 0, 0, net.host.crc(data[0]), data[0]);
    var w1 := Step(w, i, Deliver(m, true), net.host);
    net.StepKeeps(w, i, Deliver(m, true));
    FirstPacketTaken(net, w.nodes[i].obj, m);
    var e := Damage(m, payload);
    var w2 := Step(w1, i, e, net.host);
    net.StepKeeps(w1, i, e);
    DamagedTaken(net, w1.nodes[i].obj, e.Arriving());
    assert FirstPackets(1) == {0};
    var v := Fill(net, w2, i, 0, 1, {0}, data);
    var rest :| Undamaged(rest) && After(w2, rest, net.host) == v;
    run := [(i, Deliver(m, true))] + [(i, e)] + rest;
    AfterOne(w, (i, Deliver(m, true)), net.host);
    AfterOne(w1, (i, e), net.host);
    AfterSplit(w, [(i, Deliver(m, true))], [(i, e)], net.host);
    AfterSplit(w, [(i, Deliver(m, true))] + [(i, e)], rest, net.host);
  }

  lemma FirstPacketTaken(net: Network, o: Object, m: Msg)
    requires Holding(net, o, 0, {}) && m.Packet? && m.number == 0 && net.MsgOk(m) && m.page == 0 && Intact(m, net.host)
    ensures Wanted(o, m) && Holding(net, TakePacket(o, m, net.host.crc), 0, {0})
  {
    assert Missing(o, 0);
    assert 1 as PacketNo !in {0 as PacketNo} && {} + {m.number} == {0};
    net.PacketTaken(o, m);
  }

  lemma DamagedTaken(net: Network, o: Object, m: Msg)
    requires Holding(net, o, 0, {0}) && m.Packet? && m.number == 0 && net.MsgOk(m) && m.page == 0
             && !Intact(m, net.host)
    ensures Wanted(o, m) && Holding(net, TakePacket(o, m, net.host.crc), 0, {0})
    ensures TakePacket(o, m, net.host.crc).buffer[0] == m.payload
  {
    assert Missing(o, 0);
    net.PacketTaken(o, m);
  }

  /** Where nobody is updated, every run is clean. */
  lemma {:induction false} NothingTaken(d: Dissemination, w: World, run: seq<(nat, Event)>)
    requires d.Net().Inv(w) && d.c.pages > 0 && !CanUpdate(d)
    ensures Clean(w, run, d.host)
  {
    if run != [] {
      var n := |run| - 1;
      NothingTaken(d, w, run[..n]);
      d.Net().RunKeeps(w, run[..n]);
      var before, at, e := After(w, run[..n], d.host), run[n].0, run[n].1;
      if Happens(before, at, e, d.host) && TakesPacket(before.nodes[at].obj, e) {
        d.Net().WantedMeansReceiving(before.nodes[at].obj, d.versions[at], e.Arriving());
      }
    }
  }

  /** If a packet of version 1 can be damaged at all, then agreement survives damage in every
      run iff there is nothing to update. */
  lemma DamageHarmlessIff(d: Dissemination, buffers: seq<PageData>, payload: Payload)
    requires |buffers| == |d.versions| && d.c.pages > 0 && d.host.crc(payload) != d.host.crc(d.c.image(1)(0)[0])
    ensures (forall run :: d.AllAgree(After(Initial(d.versions, d.c, buffers), run, d.host)))
            <==> !CanUpdate(d)
  {
    var w := Initial(d.versions, d.c, buffers);
    if CanUpdate(d) {
      var i :| 0 <= i < |d.versions| && d.versions[i] == 0;
      var j :| 0 <= j < |d.versions| && d.versions[j] == 1;
      var run := DamagedRun(d, buffers, i, j, payload);
      assert WrongPage(d.c, After(w, run, d.host).nodes[i].obj, 0);
      assert !d.AllAgree(After(w, run, d.host));
    } else {
      forall run ensures d.AllAgree(After(w, run, d.host)) {
        d.Net().InitialOk(d.c, buffers);
        NothingTaken(d, w, run);
        d.AgreesIffClean(buffers, run);
      }
    }
  }
}
