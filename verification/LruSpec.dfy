/** What a least-recently-used cache answers, in terms of the history of touches alone. */
module LruSpec {
  import opened Gf256

  datatype Entry = Entry(key: string, value: Bytes)

  datatype Op = Get(key: string) | Put(key: string, value: Bytes)

  predicate HasKey(l: seq<Entry>, k: string) {
    exists i :: 0 <= i < |l| && l[i].key == k
  }

  // ----- the reference: a log of touches, newest first, from which nothing is ever removed

  function Without(l: seq<Entry>, k: string): (r: seq<Entry>)
    ensures |r| <= |l|
  {
    if l == [] then []
    else if l[0].key == k then Without(l[1..], k)
    else [l[0]] + Without(l[1..], k)
  }

  /** Every key once, in order of last touch, with the value of that touch. */
  function Recency(log: seq<Entry>): (r: seq<Entry>)
    ensures |r| <= |log|
    decreases |log|
  {
    if log == [] then [] else [log[0]] + Recency(Without(log[1..], log[0].key))
  }

  function Take(l: seq<Entry>, capacity: int): (r: seq<Entry>) {
    if capacity <= 0 then [] else if |l| <= capacity then l else l[..capacity]
  }

  /** The value of the newest touch of a key. */
  function Latest(log: seq<Entry>, k: string): Bytes {
    if log == [] then [] else if log[0].key == k then log[0].value else Latest(log[1..], k)
  }

  /** The cache holds the most recently touched keys, as many as fit. */
  function Cached(log: seq<Entry>, capacity: int): seq<Entry> {
    Take(Recency(log), capacity)
  }

  function RefAnswer(log: seq<Entry>, capacity: int, op: Op): Bytes {
    if op.Get? && HasKey(Cached(log, capacity), op.key) then Latest(log, op.key) else []
  }

  function RefStep(log: seq<Entry>, capacity: int, op: Op): seq<Entry> {
    match op
    case Put(k, v) => [Entry(k, v)] + log
    case Get(k) => if HasKey(Cached(log, capacity), k) then [Entry(k, Latest(log, k))] + log else log
  }

  /** The log after a whole run. */
  function RefLog(ops: seq<Op>, capacity: int): seq<Entry> {
    if ops == [] then []
    else RefStep(RefLog(ops[..|ops| - 1], capacity), capacity, ops[|ops| - 1])
  }

  /** What a run answers: one value for each operation, empty for a put. */
  function RefAnswers(ops: seq<Op>, capacity: int): (r: seq<Bytes>)
    ensures |r| == |ops|
  {
    if ops == [] then []
    else
      var before := ops[..|ops| - 1];
      RefAnswers(before, capacity) + [RefAnswer(RefLog(before, capacity), capacity, ops[|ops| - 1])]
  }

  // ----- one step at a time, on the bounded list itself

  function PutList(l: seq<Entry>, capacity: int, k: string, v: Bytes): seq<Entry> {
    if HasKey(l, k) then [Entry(k, v)] + Without(l, k)
    else if |l| + 1 > capacity then ([Entry(k, v)] + l)[..|l|]
    else [Entry(k, v)] + l
  }

  function GetList(l: seq<Entry>, k: string): seq<Entry> {
    if HasKey(l, k) then [Entry(k, Latest(l, k))] + Without(l, k) else l
  }

  // ----- the two agree

  ghost predicate DistinctKeys(l: seq<Entry>) {
    forall i, j :: 0 <= i < j < |l| ==> l[i].key != l[j].key
  }

  lemma {:induction false} WithoutLaws(l: seq<Entry>, k: string)
    ensures !HasKey(Without(l, k), k)
    ensures forall k' :: k' != k ==> (HasKey(Without(l, k), k') <==> HasKey(l, k'))
    ensures forall k' :: k' != k ==> Latest(Without(l, k), k') == Latest(l, k')
    ensures !HasKey(l, k) ==> Without(l, k) == l
  {
    if l != [] {
      var w := Without(l[1..], k);
      WithoutLaws(l[1..], k);
      forall k' | k' != k
        ensures HasKey(Without(l, k), k') <==> HasKey(l, k')
      {
        HasKeyCons(l[0], l[1..], k');
        HasKeyCons(l[0], w, k');
        assert l == [l[0]] + l[1..];
      }
      HasKeyCons(l[0], w, k);
      HasKeyCons(l[0], l[1..], k);
      assert l == [l[0]] + l[1..];
      assert ([l[0]] + w)[1..] == w;
    }
  }

  lemma HasKeyCons(e: Entry, l: seq<Entry>, k: string)
    ensures HasKey([e] + l, k) <==> e.key == k || HasKey(l, k)
  {
    var c := [e] + l;
    assert c[0] == e;
    if HasKey(l, k) {
      var i :| 0 <= i < |l| && l[i].key == k;
      assert c[i + 1].key == k;
    }
    if HasKey(c, k) {
      var i :| 0 <= i < |c| && c[i].key == k;
      assert i > 0 ==> l[i - 1].key == k;
    }
  }

  lemma {:induction false} WithoutCommutes(l: seq<Entry>, a: string, b: string)
    ensures Without(Without(l, a), b) == Without(Without(l, b), a)
  {
    if l != [] {
      WithoutCommutes(l[1..], a, b);
      var wa, wb := Without(l[1..], a), Without(l[1..], b);
      assert ([l[0]] + wa)[1..] == wa && ([l[0]] + wb)[1..] == wb;
    }
  }

  lemma {:induction false} RecencyWithout(log: seq<Entry>, k: string)
    ensures Recency(Without(log, k)) == Without(Recency(log), k)
    decreases |log|
  {
    if log != [] {
      var e, rest := log[0], Without(log[1..], log[0].key);
      RecencyWithout(rest, k);
      WithoutCommutes(log[1..], e.key, k);
      assert ([e] + Recency(rest))[1..] == Recency(rest);
      if e.key == k {
        WithoutLaws(log[1..], k);
        WithoutLaws(rest, k);
      } else {
        var w := Without(log[1..], k);
        assert Without(log, k) == [e] + w;
        assert ([e] + w)[1..] == w;
      }
    }
  }

  /** Recency lists every key of the log once, with the value of its newest touch. */
  lemma {:induction false} RecencyLaws(log: seq<Entry>)
    ensures DistinctKeys(Recency(log))
    ensures forall k :: HasKey(Recency(log), k) <==> HasKey(log, k)
    ensures forall i :: 0 <= i < |Recency(log)| ==> Recency(log)[i].value == Latest(log, Recency(log)[i].key)
    decreases |log|
  {
    if log != [] {
      var e, t := log[0], log[1..];
      var rest := Without(t, e.key);
      var r := Recency(rest);
      RecencyLaws(rest);
      WithoutLaws(t, e.key);
      forall k
        ensures HasKey([e] + r, k) <==> HasKey(log, k)
      {
        HasKeyCons(e, r, k);
        HasKeyCons(e, t, k);
        assert log == [e] + t;
      }
      forall i | 0 <= i < |r|
        ensures r[i].key != e.key && r[i].value == Latest(log, r[i].key)
      {
        assert HasKey(r, r[i].key);
      }
    }
  }

  lemma {:induction false} WithoutMiddle(l: seq<Entry>, i: nat)
    requires i < |l| && DistinctKeys(l)
    ensures Without(l, l[i].key) == l[..i] + l[i + 1..]
  {
    var k := l[i].key;
    if i == 0 {
      assert !HasKey(l[1..], k);
      WithoutLaws(l[1..], k);
    } else {
      WithoutMiddle(l[1..], i - 1);
      assert l[1..][..i - 1] == l[1..i] && l[1..][i..] == l[i + 1..];
      assert [l[0]] + (l[1..i] + l[i + 1..]) == l[..i] + l[i + 1..];
    }
  }

  lemma {:induction false} LatestAt(l: seq<Entry>, i: nat)
    requires i < |l| && DistinctKeys(l)
    ensures Latest(l, l[i].key) == l[i].value
  {
    if i > 0 {
      LatestAt(l[1..], i - 1);
    }
  }

  lemma TouchRecency(log: seq<Entry>, k: string, v: Bytes)
    ensures Recency([Entry(k, v)] + log) == [Entry(k, v)] + Without(Recency(log), k)
  {
    assert ([Entry(k, v)] + log)[1..] == log;
    RecencyWithout(log, k);
  }

  /** Taking out a key that fits keeps the first capacity entries in step with the whole list. */
  lemma TakeTouch(l: seq<Entry>, capacity: int, e: Entry)
    requires DistinctKeys(l)
    ensures Take([e] + Without(l, e.key), capacity)
         == if HasKey(Take(l, capacity), e.key) then [e] + Without(Take(l, capacity), e.key)
            else Take([e] + Take(l, capacity), capacity)
  {
    hide Without;
    var t := Take(l, capacity);
    if HasKey(t, e.key) {
      var i :| 0 <= i < |t| && t[i].key == e.key;
      WithoutMiddle(l, i);
      WithoutMiddle(t, i);
      TakeHit(l, capacity, e, i);
    } else if HasKey(l, e.key) {
      var i :| 0 <= i < |l| && l[i].key == e.key;
      assert forall j :: 0 <= j < |t| ==> t[j] == l[j];
      WithoutMiddle(l, i);
      TakeMiss(l, capacity, e, i);
    } else {
      WithoutLaws(l, e.key);
    }
  }

  lemma TakeHit(l: seq<Entry>, capacity: int, e: Entry, i: nat)
    requires i < |Take(l, capacity)|
    ensures Take([e] + (l[..i] + l[i + 1..]), capacity) == [e] + (Take(l, capacity)[..i] + Take(l, capacity)[i + 1..])
  {
  }

  lemma TakeMiss(l: seq<Entry>, capacity: int, e: Entry, i: nat)
    requires |Take(l, capacity)| <= i < |l|
    ensures Take([e] + (l[..i] + l[i + 1..]), capacity) == Take([e] + Take(l, capacity), capacity)
  {
  }

  /** A put on the bounded list is a put on the unbounded history. */
  lemma PutAgrees(log: seq<Entry>, capacity: int, k: string, v: Bytes)
    ensures PutList(Cached(log, capacity), capacity, k, v) == Cached(RefStep(log, capacity, Put(k, v)), capacity)
    ensures RefAnswer(log, capacity, Put(k, v)) == []
  {
    RecencyLaws(log);
    TouchRecency(log, k, v);
    TakeTouch(Recency(log), capacity, Entry(k, v));
  }

  lemma CachedLookup(log: seq<Entry>, capacity: int, k: string)
    requires HasKey(Cached(log, capacity), k)
    ensures Latest(Cached(log, capacity), k) == Latest(log, k)
  {
    RecencyLaws(log);
    var c := Cached(log, capacity);
    var i :| 0 <= i < |c| && c[i].key == k;
    LatestAt(c, i);
    assert c[i] == Recency(log)[i];
  }

  /** A get answers from the history and counts as a touch exactly when it hits. */
  lemma GetAgrees(log: seq<Entry>, capacity: int, k: string)
    ensures GetList(Cached(log, capacity), k) == Cached(RefStep(log, capacity, Get(k)), capacity)
    ensures (if HasKey(Cached(log, capacity), k) then Latest(Cached(log, capacity), k) else [])
         == RefAnswer(log, capacity, Get(k))
  {
    if HasKey(Cached(log, capacity), k) {
      CachedLookup(log, capacity, k);
      RecencyLaws(log);
      TouchRecency(log, k, Latest(log, k));
      TakeTouch(Recency(log), capacity, Entry(k, Latest(log, k)));
    }
  }

  // ----- the steps on the list, written out

  /** A hit moves its entry to the front and leaves the others in order; a miss changes nothing. */
  lemma GetListIs(l: seq<Entry>, k: string)
    requires DistinctKeys(l)
    ensures (forall i :: 0 <= i < |l| ==> l[i].key != k) ==> !HasKey(l, k) && GetList(l, k) == l
    ensures forall i :: 0 <= i < |l| && l[i].key == k ==>
      HasKey(l, k) && Latest(l, k) == l[i].value && GetList(l, k) == [l[i]] + l[..i] + l[i + 1..]
  {
    hide Latest, Without;
    forall i | 0 <= i < |l| && l[i].key == k
      ensures HasKey(l, k) && Latest(l, k) == l[i].value && GetList(l, k) == [l[i]] + l[..i] + l[i + 1..]
    {
      LatestAt(l, i);
      WithoutMiddle(l, i);
    }
  }

  /** A put leads, takes the place of any old entry of its key, and drives out the last entry when there is no room. */
  lemma PutListIs(l: seq<Entry>, capacity: int, k: string, v: Bytes)
    requires DistinctKeys(l)
    ensures (forall i :: 0 <= i < |l| ==> l[i].key != k) ==>
      PutList(l, capacity, k, v) == if |l| + 1 > capacity then ([Entry(k, v)] + l)[..|l|] else [Entry(k, v)] + l
    ensures forall i :: 0 <= i < |l| && l[i].key == k ==>
      PutList(l, capacity, k, v) == [Entry(k, v)] + l[..i] + l[i + 1..]
  {
    hide Without;
    forall i | 0 <= i < |l| && l[i].key == k
      ensures PutList(l, capacity, k, v) == [Entry(k, v)] + l[..i] + l[i + 1..]
    {
      WithoutMiddle(l, i);
    }
  }

  // ----- what an operation leaves under another key

  /** A put of k leaves the entry of another key, unless that is the last one and has to go. */
  ghost predicate Survives(l: seq<Entry>, capacity: int, k: string, other: string) {
    HasKey(l, other) && (HasKey(l, k) || |l| + 1 <= capacity || l[|l| - 1].key != other)
  }

  lemma LatestCons(e: Entry, l: seq<Entry>, k: string)
    ensures Latest([e] + l, k) == if e.key == k then e.value else Latest(l, k)
  {
    assert ([e] + l)[1..] == l;
  }

  lemma WithoutLast(l: seq<Entry>, k: string)
    requires DistinctKeys(l) && l != []
    ensures HasKey(l[..|l| - 1], k) <==> HasKey(l, k) && l[|l| - 1].key != k
    ensures HasKey(l[..|l| - 1], k) ==> Latest(l[..|l| - 1], k) == Latest(l, k)
  {
    var n := |l| - 1;
    var short := l[..n];
    if HasKey(short, k) {
      var i :| 0 <= i < |short| && short[i].key == k;
      assert l[i].key == k;
      LatestAt(l, i);
      LatestAt(short, i);
    }
    if HasKey(l, k) && l[n].key != k {
      var i :| 0 <= i < |l| && l[i].key == k;
      assert short[i].key == k;
    }
  }

  /** A lookup after a put, in terms of the list before it. */
  lemma PutLookup(l: seq<Entry>, capacity: int, k: string, v: Bytes, other: string)
    requires DistinctKeys(l)
    ensures HasKey(PutList(l, capacity, k, v), k) ==> Latest(PutList(l, capacity, k, v), k) == v
    ensures other != k ==> (HasKey(PutList(l, capacity, k, v), other) <==> Survives(l, capacity, k, other))
    ensures other != k && Survives(l, capacity, k, other) ==>
      Latest(PutList(l, capacity, k, v), other) == Latest(l, other)
  {
    hide HasKey, Latest, Without;
    var e, rest := Entry(k, v), if HasKey(l, k) then Without(l, k) else if |l| + 1 > capacity
      && l != [] then l[..|l| - 1] else l;
    WithoutLaws(l, k);
    if l != [] {
      WithoutLast(l, other);
    }
    HasKeyCons(e, rest, other);
    LatestCons(e, rest, other);
    LatestCons(e, rest, k);
    if !HasKey(l, k) && |l| + 1 > capacity {
      if l == [] {
        NoKeys(k);
        NoKeys(other);
      } else {
        assert ([e] + l)[..|l|] == [e] + rest;
      }
    }
  }

  lemma {:induction false} LatestOfNone(l: seq<Entry>, k: string)
    requires !HasKey(l, k)
    ensures Latest(l, k) == []
  {
    if l != [] {
      assert l == [l[0]] + l[1..];
      HasKeyCons(l[0], l[1..], k);
      LatestOfNone(l[1..], k);
    }
  }

  lemma NoKeys(k: string)
    ensures !HasKey([], k)
  {
  }

  /** A put moves an entry of another key down by at most one place, and out only if it was the last that fitted. */
  lemma PutKeepsPlace(l: seq<Entry>, capacity: int, k: string, v: Bytes, x: nat)
    requires DistinctKeys(l) && x < |l| && l[x].key != k && x + 1 < capacity
    ensures exists y :: 0 <= y <= x + 1 && y < |PutList(l, capacity, k, v)| && PutList(l, capacity, k, v)[y] == l[x]
  {
    hide PutList;
    PutListIs(l, capacity, k, v);
    var after := PutList(l, capacity, k, v);
    if i :| 0 <= i < |l| && l[i].key == k {
      assert after[if x < i then x + 1 else x] == l[x];
    } else {
      assert after[x + 1] == l[x];
    }
  }

  lemma ConsDistinct(e: Entry, l: seq<Entry>)
    requires DistinctKeys(l) && forall x :: x in l ==> x.key != e.key
    ensures DistinctKeys([e] + l)
  {
    var c := [e] + l;
    assert forall i :: 1 <= i < |c| ==> c[i] == l[i - 1];
  }

  lemma DropDistinct(l: seq<Entry>, i: nat)
    requires DistinctKeys(l) && i < |l|
    ensures DistinctKeys(l[..i] + l[i + 1..])
    ensures forall x :: x in l[..i] + l[i + 1..] ==> x.key != l[i].key
  {
    var d := l[..i] + l[i + 1..];
    assert forall j :: 0 <= j < |d| ==> d[j] == l[if j < i then j else j + 1];
  }

  lemma PutDistinct(l: seq<Entry>, capacity: int, k: string, v: Bytes)
    requires DistinctKeys(l)
    ensures DistinctKeys(PutList(l, capacity, k, v))
  {
    hide DistinctKeys, Without;
    if HasKey(l, k) {
      WithoutDistinct(l, k);
      ConsDistinct(Entry(k, v), Without(l, k));
    } else {
      ConsDistinct(Entry(k, v), l);
      PrefixDistinct([Entry(k, v)] + l, |l|);
    }
  }

  lemma WithoutDistinct(l: seq<Entry>, k: string)
    requires DistinctKeys(l) && HasKey(l, k)
    ensures DistinctKeys(Without(l, k)) && forall x :: x in Without(l, k) ==> x.key != k
  {
    hide DistinctKeys, Without;
    var i :| 0 <= i < |l| && l[i].key == k;
    WithoutMiddle(l, i);
    DropDistinct(l, i);
  }

  lemma PutLeads(l: seq<Entry>, capacity: int, k: string, v: Bytes)
    requires capacity >= 1
    ensures PutList(l, capacity, k, v) != [] && PutList(l, capacity, k, v)[0] == Entry(k, v)
  {
    hide HasKey, Without;
  }

  lemma PrefixDistinct(l: seq<Entry>, n: nat)
    requires DistinctKeys(l) && n <= |l|
    ensures DistinctKeys(l[..n])
  {
  }

  // ----- what is held after a run, in terms of its operations alone

  /** A put, or a get of a key that is held then. */
  ghost predicate IsTouch(ops: seq<Op>, capacity: int, j: nat)
    requires j < |ops|
    decreases j, 2
  {
    ops[j].Put? || IsHeld(ops[..j], capacity, ops[j].key)
  }

  /** The keys touched after operation j. */
  ghost function KeysSince(ops: seq<Op>, capacity: int, j: int): (keys: set<string>)
    requires -1 <= j < |ops|
    ensures forall k :: k in keys <==> exists t :: j < t < |ops| && IsTouch(ops, capacity, t) && ops[t].key == k
    decreases |ops|, 0
  {
    set t | j < t < |ops| && IsTouch(ops, capacity, t) :: ops[t].key
  }

  /** Fewer than capacity different other keys have been touched since the key was touched itself. */
  ghost predicate IsHeld(ops: seq<Op>, capacity: int, k: string)
    decreases |ops|, 1
  {
    exists j :: 0 <= j < |ops| && ops[j].key == k && IsTouch(ops, capacity, j)
      && k !in KeysSince(ops, capacity, j) && |KeysSince(ops, capacity, j)| < capacity
  }

  /** The keys in front of a key. */
  ghost function KeysBefore(l: seq<Entry>, k: string): (keys: set<string>)
    ensures forall x :: x in keys ==> HasKey(l, x) && x != k
  {
    if l == [] || l[0].key == k then {}
    else
      assert l == [l[0]] + l[1..];
      assert forall x :: HasKey(l[1..], x) ==> HasKey(l, x) by {
        forall x | HasKey(l[1..], x)
          ensures HasKey(l, x)
        {
          HasKeyCons(l[0], l[1..], x);
        }
      }
      {l[0].key} + KeysBefore(l[1..], k)
  }

  lemma {:induction false} KeysBeforeWithout(l: seq<Entry>, k: string, other: string)
    requires other != k
    ensures KeysBefore(Without(l, k), other) == KeysBefore(l, other) - {k}
  {
    if l != [] && l[0].key != other {
      KeysBeforeWithout(l[1..], k, other);
      assert l[0].key != k ==> Without(l, k)[1..] == Without(l[1..], k);
    }
  }

  /** A key is among the first entries exactly if few keys stand before it. */
  lemma {:induction false} TakeByRank(l: seq<Entry>, capacity: int, k: string)
    requires DistinctKeys(l)
    ensures HasKey(Take(l, capacity), k) <==> HasKey(l, k) && |KeysBefore(l, k)| < capacity
  {
    if l == [] {
      NoKeys(k);
    } else {
      var e, rest := l[0], l[1..];
      assert l == [e] + rest;
      HasKeyCons(e, rest, k);
      TakeByRank(rest, capacity - 1, k);
      assert !HasKey(rest, e.key);
      if capacity > 0 {
        assert Take(l, capacity) == [e] + Take(rest, capacity - 1);
        HasKeyCons(e, Take(rest, capacity - 1), k);
      } else {
        NoKeys(k);
      }
    }
  }

  // ----- the value of a key over a run

  /** The value last put under a key, empty if there was none. */
  ghost function LastPut(ops: seq<Op>, k: string): Bytes {
    if ops == [] then []
    else
      var op := ops[|ops| - 1];
      if op.Put? && op.key == k then op.value else LastPut(ops[..|ops| - 1], k)
  }

  /** Gets change the order of the keys, but no value. */
  lemma {:induction false} LatestIsLastPut(ops: seq<Op>, capacity: int, k: string)
    ensures Latest(RefLog(ops, capacity), k) == LastPut(ops, k)
  {
    hide HasKey, Cached;
    if ops != [] {
      var before, op := ops[..|ops| - 1], ops[|ops| - 1];
      LatestIsLastPut(before, capacity, k);
      var log := RefLog(before, capacity);
      LatestCons(Entry(op.key, Latest(log, op.key)), log, k);
      if op.Put? {
        LatestCons(Entry(op.key, op.value), log, k);
      }
    }
  }

  lemma RefLogStep(ops: seq<Op>, capacity: int, op: Op)
    ensures RefLog(ops + [op], capacity) == RefStep(RefLog(ops, capacity), capacity, op)
    ensures forall k :: LastPut(ops + [op], k) == if op.Put? && op.key == k then op.value else LastPut(ops, k)
  {
    hide RefStep;
    assert (ops + [op])[..|ops|] == ops;
  }

  /** What the cache holds after a run. */
  ghost function ContentsAfter(ops: seq<Op>, capacity: int): seq<Entry> {
    Cached(RefLog(ops, capacity), capacity)
  }

  lemma ContentsStep(ops: seq<Op>, capacity: int, op: Op)
    ensures ContentsAfter(ops + [op], capacity) ==
      match op
      case Put(k, v) => PutList(ContentsAfter(ops, capacity), capacity, k, v)
      case Get(k) => GetList(ContentsAfter(ops, capacity), k)
  {
    hide Cached, RefStep, PutList, GetList, RefAnswer;
    RefLogStep(ops, capacity, op);
    match op
    case Put(k, v) => PutAgrees(RefLog(ops, capacity), capacity, k, v);
    case Get(k) => GetAgrees(RefLog(ops, capacity), capacity, k);
  }

  lemma HeldIsLastPut(ops: seq<Op>, capacity: int, k: string)
    requires HasKey(ContentsAfter(ops, capacity), k)
    ensures Latest(ContentsAfter(ops, capacity), k) == LastPut(ops, k)
  {
    hide Cached, HasKey;
    CachedLookup(RefLog(ops, capacity), capacity, k);
    LatestIsLastPut(ops, capacity, k);
  }

  /** The last put of a key, by its place in the run. */
  ghost predicate IsLastPut(ops: seq<Op>, k: string, j: int) {
    && 0 <= j < |ops| && ops[j].Put? && ops[j].key == k
    && forall t :: j < t < |ops| && ops[t].Put? ==> ops[t].key != k
  }

  lemma {:induction false} LastPutIs(ops: seq<Op>, k: string, j: int)
    requires IsLastPut(ops, k, j)
    ensures LastPut(ops, k) == ops[j].value
  {
    var last := |ops| - 1;
    if j < last {
      LastPutIs(ops[..last], k, j);
    }
  }

  // ----- the entries held are those of the operations

  ghost predicate IsLastTouch(ops: seq<Op>, capacity: int, k: string, j: int) {
    0 <= j < |ops| && ops[j].key == k && IsTouch(ops, capacity, j) && k !in KeysSince(ops, capacity, j)
  }

  /** One operation more is touched itself or changes nothing. */
  lemma SinceStep(ops: seq<Op>, capacity: int, j: int)
    requires ops != [] && 0 <= j < |ops|
    ensures var last := |ops| - 1;
      if j == last then KeysSince(ops, capacity, j) == {}
      else
        && IsTouch(ops, capacity, j) == IsTouch(ops[..last], capacity, j)
        && KeysSince(ops, capacity, j) == KeysSince(ops[..last], capacity, j)
             + if IsTouch(ops, capacity, last) then {ops[last].key} else {}
  {
    hide IsTouch, KeysSince;
    var last := |ops| - 1;
    var before := ops[..last];
    if j < last {
      TouchPrefix(ops, capacity, last, j);
      var more := if IsTouch(ops, capacity, last) then {ops[last].key} else {};
      forall k
        ensures k in KeysSince(ops, capacity, j) <==> k in KeysSince(before, capacity, j) + more
      {
        SinceMember(ops, capacity, j, k);
      }
    }
  }

  lemma SinceMember(ops: seq<Op>, capacity: int, j: int, k: string)
    requires ops != [] && 0 <= j < |ops| - 1
    ensures var last := |ops| - 1;
      k in KeysSince(ops, capacity, j) <==>
        k in KeysSince(ops[..last], capacity, j) || (IsTouch(ops, capacity, last) && ops[last].key == k)
  {
    hide IsTouch, KeysSince;
    var last := |ops| - 1;
    var before := ops[..last];
    if k in KeysSince(ops, capacity, j) {
      var t :| j < t < |ops| && IsTouch(ops, capacity, t) && ops[t].key == k;
      if t < last {
        TouchPrefix(ops, capacity, last, t);
        assert IsTouch(before, capacity, t) && before[t].key == k;
      }
    }
    if k in KeysSince(before, capacity, j) {
      var t :| j < t < last && IsTouch(before, capacity, t) && before[t].key == k;
      TouchPrefix(ops, capacity, last, t);
      assert IsTouch(ops, capacity, t) && ops[t].key == k;
    }
  }

  lemma TouchPrefix(ops: seq<Op>, capacity: int, n: nat, j: nat)
    requires j < n <= |ops|
    ensures IsTouch(ops, capacity, j) == IsTouch(ops[..n], capacity, j)
  {
    hide IsHeld;
    assert ops[..n][..j] == ops[..j] && ops[..n][j] == ops[j];
  }

  lemma LastTouchStep(ops: seq<Op>, capacity: int, k: string, j: int)
    requires ops != []
    ensures var last := |ops| - 1;
      IsLastTouch(ops, capacity, k, j) <==>
        if IsTouch(ops, capacity, last) && ops[last].key == k then j == last
        else j < last && IsLastTouch(ops[..last], capacity, k, j)
  {
    hide IsTouch, KeysSince;
    if 0 <= j < |ops| {
      SinceStep(ops, capacity, j);
    }
  }

  /** The recency order ranks every key by the keys touched since its own last touch. */
  lemma {:induction false} RankIsKeysSince(ops: seq<Op>, capacity: int, k: string)
    ensures HasKey(Recency(RefLog(ops, capacity)), k) <==> exists j :: IsLastTouch(ops, capacity, k, j)
    ensures forall j :: IsLastTouch(ops, capacity, k, j) ==>
      KeysBefore(Recency(RefLog(ops, capacity)), k) == KeysSince(ops, capacity, j)
    decreases |ops|, 0
  {
    if ops == [] {
      NoKeys(k);
    } else {
      var last := |ops| - 1;
      var before, op := ops[..last], ops[last];
      var log := RefLog(before, capacity);
      RankIsKeysSince(before, capacity, k);
      HeldIsCached(before, capacity, op.key);
      if IsTouch(ops, capacity, last) {
        RankTouched(ops, capacity, k, if op.Put? then op.value else Latest(log, op.key));
      } else {
        RankUntouched(ops, capacity, k);
      }
    }
  }

  lemma RankUntouched(ops: seq<Op>, capacity: int, k: string)
    requires ops != [] && !IsTouch(ops, capacity, |ops| - 1)
    requires var before := ops[..|ops| - 1];
      && RefLog(ops, capacity) == RefLog(before, capacity)
      && (HasKey(Recency(RefLog(before, capacity)), k) <==> exists j :: IsLastTouch(before, capacity, k, j))
      && forall j :: IsLastTouch(before, capacity, k, j) ==>
        KeysBefore(Recency(RefLog(before, capacity)), k) == KeysSince(before, capacity, j)
    ensures HasKey(Recency(RefLog(ops, capacity)), k) <==> exists j :: IsLastTouch(ops, capacity, k, j)
    ensures forall j :: IsLastTouch(ops, capacity, k, j) ==>
      KeysBefore(Recency(RefLog(ops, capacity)), k) == KeysSince(ops, capacity, j)
  {
    hide IsTouch, KeysSince, KeysBefore, Recency, HasKey, RefLog, IsLastTouch;
    forall j
      ensures IsLastTouch(ops, capacity, k, j) <==> j < |ops| - 1 && IsLastTouch(ops[..|ops| - 1], capacity, k, j)
    {
      LastTouchStep(ops, capacity, k, j);
    }
    var before := ops[..|ops| - 1];
    LastTouchInRange(before, capacity, k);
    if j :| IsLastTouch(before, capacity, k, j) {
      assert IsLastTouch(ops, capacity, k, j);
    }
    if j :| IsLastTouch(ops, capacity, k, j) {
      assert IsLastTouch(before, capacity, k, j);
    }
    forall j | IsLastTouch(ops, capacity, k, j)
      ensures KeysSince(ops, capacity, j) == KeysSince(ops[..|ops| - 1], capacity, j)
    {
      SinceStep(ops, capacity, j);
    }
  }

  lemma LastTouchInRange(ops: seq<Op>, capacity: int, k: string)
    ensures forall j :: IsLastTouch(ops, capacity, k, j) ==> 0 <= j < |ops|
  {
    hide IsTouch, KeysSince;
  }

  lemma RankTouched(ops: seq<Op>, capacity: int, k: string, v: Bytes)
    requires ops != [] && IsTouch(ops, capacity, |ops| - 1)
    requires var before := ops[..|ops| - 1];
      && RefLog(ops, capacity) == [Entry(ops[|ops| - 1].key, v)] + RefLog(before, capacity)
      && (HasKey(Recency(RefLog(before, capacity)), k) <==> exists j :: IsLastTouch(before, capacity, k, j))
      && forall j :: IsLastTouch(before, capacity, k, j) ==>
        KeysBefore(Recency(RefLog(before, capacity)), k) == KeysSince(before, capacity, j)
    ensures HasKey(Recency(RefLog(ops, capacity)), k) <==> exists j :: IsLastTouch(ops, capacity, k, j)
    ensures forall j :: IsLastTouch(ops, capacity, k, j) ==>
      KeysBefore(Recency(RefLog(ops, capacity)), k) == KeysSince(ops, capacity, j)
  {
    hide IsTouch, KeysSince, Recency, HasKey, RefLog, IsLastTouch, Without;
    var last := |ops| - 1;
    var op, r := ops[last], Recency(RefLog(ops[..last], capacity));
    var e := Entry(op.key, v);
    TouchRecency(RefLog(ops[..last], capacity), op.key, v);
    var w := Without(r, op.key);
    HasKeyCons(e, w, k);
    WithoutLaws(r, op.key);
    assert ([e] + w)[0] == e && ([e] + w)[1..] == w;
    forall j
      ensures IsLastTouch(ops, capacity, k, j) <==>
        if op.key == k then j == last else j < last && IsLastTouch(ops[..last], capacity, k, j)
    {
      LastTouchStep(ops, capacity, k, j);
    }
    LastTouchInRange(ops[..last], capacity, k);
    if op.key == k {
      SinceStep(ops, capacity, last);
      assert IsLastTouch(ops, capacity, k, last);
    } else {
      KeysBeforeWithout(r, op.key, k);
      forall j | IsLastTouch(ops, capacity, k, j)
        ensures KeysSince(ops, capacity, j) == KeysSince(ops[..last], capacity, j) + {op.key}
      {
        SinceStep(ops, capacity, j);
      }
    }
  }

  /**
   A key is held after a run exactly if fewer than capacity different other keys were put, or hit by a get,
   since it was put or hit itself.
   */
  lemma {:induction false} HeldIsCached(ops: seq<Op>, capacity: int, k: string)
    ensures HasKey(ContentsAfter(ops, capacity), k) <==> IsHeld(ops, capacity, k)
    decreases |ops|, 1
  {
    hide IsTouch, KeysSince, KeysBefore, Recency, HasKey, RefLog, Take;
    RankIsKeysSince(ops, capacity, k);
    RecencyLaws(RefLog(ops, capacity));
    TakeByRank(Recency(RefLog(ops, capacity)), capacity, k);
    if IsHeld(ops, capacity, k) {
      var j :| 0 <= j < |ops| && ops[j].key == k && IsTouch(ops, capacity, j)
        && k !in KeysSince(ops, capacity, j) && |KeysSince(ops, capacity, j)| < capacity;
      assert IsLastTouch(ops, capacity, k, j);
    }
    if j :| IsLastTouch(ops, capacity, k, j) {
      assert ops[j].key == k;
    }
  }

  /** A get is a touch exactly when the cache holds its key at that time. */
  lemma TouchesAre(ops: seq<Op>, capacity: int, j: nat)
    requires j < |ops|
    ensures IsTouch(ops, capacity, j) <==> ops[j].Put? || HasKey(ContentsAfter(ops[..j], capacity), ops[j].key)
  {
    hide ContentsAfter, HasKey, IsHeld;
    HeldIsCached(ops[..j], capacity, ops[j].key);
  }

  lemma {:induction false} EarlierIsBefore(l: seq<Entry>, x: nat, y: nat)
    requires DistinctKeys(l) && x < y < |l|
    ensures l[x].key in KeysBefore(l, l[y].key)
  {
    if x > 0 {
      EarlierIsBefore(l[1..], x - 1, y - 1);
    }
  }

  /** The entries stand in the order of their last touches, newest first. */
  lemma HeldInOrder(ops: seq<Op>, capacity: int, x: nat, y: nat, j: int)
    requires x < y < |ContentsAfter(ops, capacity)|
    requires IsLastTouch(ops, capacity, ContentsAfter(ops, capacity)[y].key, j)
    ensures ContentsAfter(ops, capacity)[x].key in KeysSince(ops, capacity, j)
  {
    hide IsLastTouch, KeysSince, KeysBefore, Recency, RefLog;
    var r := Recency(RefLog(ops, capacity));
    RecencyLaws(RefLog(ops, capacity));
    EarlierIsBefore(r, x, y);
    RankIsKeysSince(ops, capacity, r[y].key);
  }
}
