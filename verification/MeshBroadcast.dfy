/**
 One broadcast in a network of MyTransport.cpp nodes with fixed parents.  Who hears whom is not determined: every
 transmission reaches an arbitrary set of nodes, each at most once and at any time.
 */
module MeshBroadcast {
  import opened MeshMessages
  import opened Sequences

  /** from has transmitted and to is going to hear it. */
  datatype Reception = Reception(from: Id, to: Id)

  /**
   Receptions to come, transmissions so far, and the nodes that have heard their parent; exactly then, and unless the
   message is internal, a node hands it to its program.
   */
  datatype Air = Air(pending: seq<Reception>, sent: seq<Id>, heard: seq<Id>)

  /** The network: parents, which nodes repeat, and the message. */
  datatype Setting = Setting(parent: seq<Id>, repeaters: set<Id>, m: Message)

  predicate IsSetting(c: Setting) {
    |c.parent| == 256
  }

  /** The nodes that a transmission of k reaches. */
  predicate Reaches(k: Id, listeners: seq<Id>) {
    Distinct(listeners) && k !in listeners
  }

  function From(k: Id, listeners: seq<Id>): (r: seq<Reception>)
    ensures |r| == |listeners|
  {
    seq(|listeners|, i requires 0 <= i < |listeners| => Reception(k, listeners[i]))
  }

  /** The sender transmits. */
  ghost predicate Begins(c: Setting, listeners: seq<Id>, s: Air)
    requires IsSetting(c)
  {
    Reaches(c.m.sender, listeners) && s == Air(From(c.m.sender, listeners), [c.m.sender], [])
  }

  /** Reception i, by a node that may be ready to repeat; listeners are those who will hear the repetition. */
  ghost predicate Hears(c: Setting, s: Air, i: nat, ready: bool, listeners: seq<Id>, s': Air)
    requires IsSetting(c)
  {
    && i < |s.pending|
    && var k, r := s.pending[i].from, s.pending[i].to;
    && var m := c.m.(last := k);
    && var heard := if m.last == c.parent[r] then s.heard + [r] else s.heard;
    && var rest := DropAt(s.pending, i);
    && if ready && r in c.repeaters && ForwardsBroadcast(r, c.parent[r], m) then
         Reaches(r, listeners) && s' == Air(rest + From(r, listeners), s.sent + [r], heard)
       else
         s' == Air(rest, s.sent, heard)
  }

  /** Nobody has transmitted or heard the parent twice, and nothing to come can make it so. */
  ghost predicate Inv(c: Setting, s: Air)
    requires IsSetting(c)
  {
    && Distinct(s.sent) && Distinct(s.heard) && Distinct(s.pending)
    && (forall p :: p in s.pending ==> p.from in s.sent)
    && (forall r :: r in s.heard ==> c.parent[r] in s.sent && Reception(c.parent[r], r) !in s.pending)
    && (forall r :: r in s.sent && r != c.m.sender ==> r in s.heard)
  }

  lemma DistinctAppend<T>(s: seq<T>, x: T)
    requires Distinct(s) && x !in s
    ensures Distinct(s + [x])
  {
  }

  lemma DistinctFrom(k: Id, listeners: seq<Id>, pending: seq<Reception>)
    requires Distinct(listeners) && Distinct(pending) && forall p :: p in pending ==> p.from != k
    ensures Distinct(pending + From(k, listeners))
  {
  }

  lemma Begin(c: Setting, listeners: seq<Id>, s: Air)
    requires IsSetting(c) && Begins(c, listeners, s)
    ensures Inv(c, s)
  {
    DistinctFrom(c.m.sender, listeners, []);
    assert [] + From(c.m.sender, listeners) == From(c.m.sender, listeners);
  }

  /** One reception keeps the invariant, and the message comes closer to its end. */
  lemma HearKeeps(c: Setting, s: Air, i: nat, ready: bool, listeners: seq<Id>, s': Air)
    requires IsSetting(c) && Inv(c, s) && Hears(c, s, i, ready, listeners, s')
    ensures Inv(c, s')
  {
    var k, r := s.pending[i].from, s.pending[i].to;
    DistinctDropAt(s.pending, i);
    if k == c.parent[r] {
      assert s.pending[i] == Reception(c.parent[r], r);
      DistinctAppend(s.heard, r);
      if ready && r in c.repeaters && r != c.m.sender {
        assert r !in s.sent;
        DistinctAppend(s.sent, r);
        DistinctFrom(r, listeners, DropAt(s.pending, i));
      }
    }
  }

  // The end of a broadcast

  function Ids(n: nat): (ids: set<Id>)
    requires n <= 256
    ensures |ids| == n && forall x: Id :: x in ids <==> x < n
  {
    if n == 0 then {} else Ids(n - 1) + {n - 1}
  }

  lemma {:induction false} DistinctElements(s: seq<Id>) returns (elements: set<Id>)
    requires Distinct(s)
    ensures |elements| == |s| && forall x :: x in elements <==> x in s
  {
    if s == [] {
      elements := {};
    } else {
      var n := |s| - 1;
      var rest := DistinctElements(s[..n]);
      assert s[n] !in rest;
      elements := rest + {s[n]};
    }
  }

  lemma Smaller(a: set<Id>, b: set<Id>)
    requires a <= b
    ensures |a| <= |b|
  {
    if a != b {
      assert b == a + (b - a);
    }
  }

  lemma AtMostAllNodes(s: seq<Id>)
    requires Distinct(s)
    ensures |s| <= 256
  {
    var elements := DistinctElements(s);
    Smaller(elements, Ids(256));
  }

  /** How much can still happen at most. */
  function Potential(s: Air): int {
    (256 - |s.sent|) * 256 + |s.pending|
  }

  lemma HearConsumes(c: Setting, s: Air, i: nat, ready: bool, listeners: seq<Id>, s': Air)
    requires IsSetting(c) && Inv(c, s) && Hears(c, s, i, ready, listeners, s')
    ensures 0 <= Potential(s') < Potential(s)
  {
    HearKeeps(c, s, i, ready, listeners, s');
    AtMostAllNodes(s'.sent);
    if s'.sent != s.sent {
      AtMostAllNodes(listeners + [s.pending[i].to]);
    }
  }

  datatype Event = Hearing(i: nat, ready: bool, listeners: seq<Id>)

  ghost predicate IsRun(c: Setting, ss: seq<Air>, es: seq<Event>)
    requires IsSetting(c)
  {
    && |ss| == |es| + 1 && (exists listeners :: Begins(c, listeners, ss[0]))
    && forall i :: 0 <= i < |es| ==> Hears(c, ss[i], es[i].i, es[i].ready, es[i].listeners, ss[i + 1])
  }

  /** Whoever hears whom, and whatever gets lost: no node transmits a broadcast twice, and none takes it twice. */
  lemma {:induction false} RunIsSafe(c: Setting, ss: seq<Air>, es: seq<Event>, i: nat)
    requires IsSetting(c) && IsRun(c, ss, es) && i <= |es|
    ensures Inv(c, ss[i]) && Distinct(ss[i].sent) && Distinct(ss[i].heard)
  {
    if i == 0 {
      var listeners :| Begins(c, listeners, ss[0]);
      Begin(c, listeners, ss[0]);
    } else {
      RunIsSafe(c, ss, es, i - 1);
      HearKeeps(c, ss[i - 1], es[i - 1].i, es[i - 1].ready, es[i - 1].listeners, ss[i]);
    }
  }

  /** Forwarding ends: a run has fewer than 2^16 receptions. */
  lemma {:induction false} RunIsShort(c: Setting, ss: seq<Air>, es: seq<Event>)
    requires IsSetting(c) && IsRun(c, ss, es)
    ensures |es| < 0x1_0000
  {
    PotentialFalls(c, ss, es, |es|);
    RunIsSafe(c, ss, es, 0);
    var listeners :| Begins(c, listeners, ss[0]);
    AtMostAllNodes(listeners + [c.m.sender]);
  }

  lemma {:induction false} PotentialFalls(c: Setting, ss: seq<Air>, es: seq<Event>, i: nat)
    requires IsSetting(c) && IsRun(c, ss, es) && i <= |es|
    ensures Potential(ss[i]) + i <= Potential(ss[0]) && (i > 0 ==> Potential(ss[i]) >= 0)
  {
    if i == 0 {
    } else {
      PotentialFalls(c, ss, es, i - 1);
      RunIsSafe(c, ss, es, i - 1);
      HearConsumes(c, ss[i - 1], es[i - 1].i, es[i - 1].ready, es[i - 1].listeners, ss[i]);
    }
  }
}
