/** Choosing one deny candidate: a stable sort by next allowed time and name. */
module DenyOrder {
  import opened Clock
  import opened Wrappers

  datatype PolicyKind = FreezeExceptionKind | ChangeFreezeKind | MaintenanceWindowKind

  datatype PolicyRef = PolicyRef(kind: PolicyKind, name: string)

  datatype DenyCandidate = DenyCandidate(
    ref: PolicyRef,
    reason: string,
    nextAllowed: Option<Time>,
    freezeEnd: Option<Time>,
    id: string)

  // Byte-wise string order.
  predicate StringLess(a: string, b: string) {
    if |b| == 0 then false
    else if |a| == 0 then true
    else if a[0] != b[0] then a[0] < b[0]
    else StringLess(a[1..], b[1..])
  }

  // The comparator handed to the sort.
  predicate Less(a: DenyCandidate, b: DenyCandidate) {
    if a.nextAllowed.Some? && b.nextAllowed.Some? && a.nextAllowed.value != b.nextAllowed.value
    then a.nextAllowed.value < b.nextAllowed.value
    else if a.nextAllowed.Some? && b.nextAllowed.None? then true
    else if a.nextAllowed.None? && b.nextAllowed.Some? then false
    else StringLess(a.id, b.id)
  }

  /* The stable sort, as a function */

  // x goes in after the last element it does not precede.
  function Insert(sorted: seq<DenyCandidate>, x: DenyCandidate): seq<DenyCandidate>
    decreases |sorted|
  {
    var n := |sorted|;
    if n > 0 && Less(x, sorted[n - 1])
    then Insert(sorted[..n - 1], x) + [sorted[n - 1]]
    else sorted + [x]
  }

  function StableSort(s: seq<DenyCandidate>): seq<DenyCandidate>
    decreases |s|
  {
    if |s| == 0 then [] else Insert(StableSort(s[..|s| - 1]), s[|s| - 1])
  }

  lemma {:induction false} InsertLength(sorted: seq<DenyCandidate>, x: DenyCandidate)
    ensures |Insert(sorted, x)| == |sorted| + 1
    decreases |sorted|
  {
    hide Less;
    var n := |sorted|;
    if n > 0 && Less(x, sorted[n - 1]) {
      InsertLength(sorted[..n - 1], x);
    }
  }

  lemma {:induction false} StableSortLength(s: seq<DenyCandidate>)
    ensures |StableSort(s)| == |s|
    decreases |s|
  {
    if |s| > 0 {
      StableSortLength(s[..|s| - 1]);
      InsertLength(StableSort(s[..|s| - 1]), s[|s| - 1]);
    }
  }

  // x lands right before the elements it precedes.
  lemma {:induction false} InsertPlace(sorted: seq<DenyCandidate>, x: DenyCandidate, j: nat)
    requires j <= |sorted|
    requires forall k :: j <= k < |sorted| ==> Less(x, sorted[k])
    requires j > 0 ==> !Less(x, sorted[j - 1])
    ensures Insert(sorted, x) == sorted[..j] + [x] + sorted[j..]
    decreases |sorted|
  {
    hide Less;
    var n := |sorted|;
    if j < n {
      InsertPlace(sorted[..n - 1], x, j);
      assert sorted[..n - 1][..j] == sorted[..j];
      assert sorted[..n - 1][j..] + [sorted[n - 1]] == sorted[j..];
    } else {
      assert sorted[..j] == sorted && sorted[j..] == [];
    }
  }

  lemma Assembled(r: seq<DenyCandidate>, sorted: seq<DenyCandidate>, x: DenyCandidate, j: nat)
    requires j <= |sorted| && |r| == |sorted| + 1 && r[j] == x
    requires forall k :: 0 <= k < j ==> r[k] == sorted[k]
    requires forall k :: j < k < |r| ==> r[k] == sorted[k - 1]
    ensures r == sorted[..j] + [x] + sorted[j..]
  {}

  // One round of the insertion sort: a[i] sinks into the sorted part before it.
  method SinkInto(a: array<DenyCandidate>, i: nat)
    requires i < a.Length
    modifies a
    ensures a[..i + 1] == Insert(old(a[..i]), old(a[i]))
    ensures a[i + 1..] == old(a[i + 1..])
  {
    hide Less, Insert;
    ghost var sorted, x, after := a[..i], a[i], a[i + 1..];
    var j := i;
    while j > 0 && Less(a[j], a[j - 1])
      invariant j <= i && a[j] == x
      invariant forall k :: 0 <= k < j ==> a[k] == sorted[k]
      invariant forall k :: j < k <= i ==> a[k] == sorted[k - 1]
      invariant forall k :: j <= k < i ==> Less(x, sorted[k])
      invariant a[i + 1..] == after
      decreases j
    {
      a[j], a[j - 1] := a[j - 1], a[j];
      j := j - 1;
    }
    Assembled(a[..i + 1], sorted, x, j);
    InsertPlace(sorted, x, j);
  }

  // The sort in place, by insertion.
  method SortStable(a: array<DenyCandidate>)
    modifies a
    ensures a[..] == StableSort(old(a[..]))
  {
    hide Less, Insert;
    ghost var was := a[..];
    for i := 0 to a.Length
      invariant a[..i] == StableSort(was[..i])
      invariant a[i..] == was[i..]
    {
      assert a[i] == a[i..][0] == was[i];
      assert was[..i + 1][..i] == was[..i];
      assert was[i + 1..] == was[i..][1..] == a[i + 1..];
      SinkInto(a, i);
    }
    assert was[..a.Length] == was && a[..a.Length] == a[..];
  }

  method SelectDenyCandidate(matched: array<DenyCandidate>) returns (chosen: DenyCandidate)
    requires matched.Length > 0
    modifies matched
    ensures matched[..] == StableSort(old(matched[..]))
    ensures chosen == Chosen(old(matched[..]))
  {
    ghost var was := matched[..];
    StableSortLength(was);
    SortStable(matched);
    chosen := matched[0];
    assert chosen == matched[..][0];
  }

  function Chosen(s: seq<DenyCandidate>): DenyCandidate
    requires |s| > 0
  {
    StableSortLength(s);
    StableSort(s)[0]
  }

  /* What the choice means */

  lemma {:induction false} StringLessTotal(a: string, b: string)
    ensures !(StringLess(a, b) && StringLess(b, a))
    ensures !StringLess(a, b) && !StringLess(b, a) <==> a == b
    decreases |a|
  {
    if |a| > 0 && |b| > 0 {
      StringLessTotal(a[1..], b[1..]);
      if a[0] == b[0] && a[1..] == b[1..] {
        assert a == [a[0]] + a[1..] == [b[0]] + b[1..] == b;
      }
    }
  }

  lemma {:induction false} StringLessTransitive(x: string, a: string, b: string)
    requires StringLess(x, a) && StringLess(a, b)
    ensures StringLess(x, b)
    decreases |x|
  {
    if |x| > 0 && x[0] == a[0] == b[0] {
      StringLessTransitive(x[1..], a[1..], b[1..]);
    }
  }

  // The comparator is a strict weak order, which is what a sort needs.
  lemma LessWeakOrder(x: DenyCandidate, a: DenyCandidate, b: DenyCandidate)
    ensures !(Less(a, b) && Less(b, a))
    ensures Less(x, a) && !Less(b, a) ==> Less(x, b)
  {
    hide StringLess;
    StringLessTotal(a.id, b.id);
    StringLessTotal(x.id, b.id);
    if StringLess(x.id, a.id) && StringLess(a.id, b.id) {
      StringLessTransitive(x.id, a.id, b.id);
    }
  }

  // Position i holds the first of the least elements.
  ghost predicate FirstLeast(s: seq<DenyCandidate>, i: nat) {
    && i < |s|
    && (forall j :: 0 <= j < |s| ==> !Less(s[j], s[i]))
    && (forall j :: 0 <= j < i ==> Less(s[i], s[j]))
  }

  lemma {:induction false} InsertHead(sorted: seq<DenyCandidate>, x: DenyCandidate)
    ensures |Insert(sorted, x)| == |sorted| + 1
    ensures Insert(sorted, x)[0] ==
              if forall k :: 0 <= k < |sorted| ==> Less(x, sorted[k]) then x else sorted[0]
    decreases |sorted|
  {
    hide Less;
    var n := |sorted|;
    if n > 0 && Less(x, sorted[n - 1]) {
      InsertHead(sorted[..n - 1], x);
      assert forall k :: 0 <= k < n - 1 ==> sorted[..n - 1][k] == sorted[k];
    }
  }

  lemma {:induction false} InsertElements(sorted: seq<DenyCandidate>, x: DenyCandidate)
    ensures multiset(Insert(sorted, x)) == multiset(sorted) + multiset{x}
    decreases |sorted|
  {
    hide Less;
    var n := |sorted|;
    if n > 0 && Less(x, sorted[n - 1]) {
      InsertElements(sorted[..n - 1], x);
      assert sorted == sorted[..n - 1] + [sorted[n - 1]];
    }
  }

  lemma {:induction false} StableSortElements(s: seq<DenyCandidate>)
    ensures multiset(StableSort(s)) == multiset(s)
    decreases |s|
  {
    hide Insert;
    if |s| > 0 {
      var n := |s| - 1;
      var front := s[..n];
      StableSortElements(front);
      InsertElements(StableSort(front), s[n]);
      assert s == front + [s[n]];
    }
  }

  // One more element at the end takes the lead only by strictly preceding the leader.
  lemma FirstLeastExtends(s: seq<DenyCandidate>, k: nat)
    requires |s| > 1 && FirstLeast(s[..|s| - 1], k)
    ensures FirstLeast(s, if Less(s[|s| - 1], s[k]) then |s| - 1 else k)
  {
    hide Less;
    var n := |s| - 1;
    var front, x := s[..n], s[n];
    LessWeakOrder(x, x, x);
    forall m | 0 <= m < n
      ensures !Less(s[m], s[k]) && (m < k ==> Less(s[k], s[m]))
      ensures Less(x, s[k]) ==> Less(x, s[m]) && !Less(s[m], x)
    {
      assert front[m] == s[m] && front[k] == s[k];
      LessWeakOrder(x, s[k], s[m]);
      LessWeakOrder(x, s[m], x);
      LessWeakOrder(x, x, s[m]);
    }
  }

  // Preceding the leader of a sorted listing is preceding all of it.
  lemma LeaderDecides(front: seq<DenyCandidate>, k: nat, x: DenyCandidate)
    requires FirstLeast(front, k) && |StableSort(front)| == |front| && StableSort(front)[0] == front[k]
    ensures Less(x, front[k]) <==> forall j :: 0 <= j < |front| ==> Less(x, StableSort(front)[j])
  {
    hide Less, StableSort;
    var sorted := StableSort(front);
    forall j | 0 <= j < |sorted|
      ensures Less(x, front[k]) ==> Less(x, sorted[j])
    {
      StableSortElements(front);
      assert sorted[j] in multiset(front);
      var m :| 0 <= m < |front| && front[m] == sorted[j];
      LessWeakOrder(x, front[k], front[m]);
    }
  }

  // The sort puts the first of the least elements in front.
  lemma {:induction false} ChosenIsFirstLeast(s: seq<DenyCandidate>) returns (i: nat)
    requires |s| > 0
    ensures FirstLeast(s, i) && Chosen(s) == s[i]
    decreases |s|
  {
    hide Less, Insert;
    var n := |s| - 1;
    var front := s[..n];
    StableSortLength(s);
    StableSortLength(front);
    InsertHead(StableSort(front), s[n]);
    if n == 0 {
      i := 0;
      LessWeakOrder(s[0], s[0], s[0]);
    } else {
      var k := ChosenIsFirstLeast(front);
      LeaderDecides(front, k, s[n]);
      FirstLeastExtends(s, k);
      i := if Less(s[n], s[k]) then n else k;
    }
  }

  /* The choice in terms of a strict total order */

  function Rank(k: PolicyKind): nat {
    match k
    case FreezeExceptionKind => 0
    case ChangeFreezeKind => 1
    case MaintenanceWindowKind => 2
  }

  // Next allowed time with none last, then name, then kind.
  predicate Before(a: DenyCandidate, b: DenyCandidate) {
    Less(a, b) || (!Less(b, a) && Rank(a.ref.kind) < Rank(b.ref.kind))
  }

  // The candidates as the evaluator lists them: freezes first, ids are names, names unique per kind.
  ghost predicate WellListed(s: seq<DenyCandidate>) {
    && (forall i :: 0 <= i < |s| ==> s[i].id == s[i].ref.name)
    && (forall i, j :: 0 <= i < j < |s| ==>
          s[i].ref != s[j].ref && Rank(s[i].ref.kind) <= Rank(s[j].ref.kind))
  }

  // The chosen candidate comes before every other one.
  lemma ChosenIsMinimum(s: seq<DenyCandidate>, c: DenyCandidate)
    requires |s| > 0 && WellListed(s) && c in s
    ensures Chosen(s) in s && (c == Chosen(s) || Before(Chosen(s), c))
  {
    hide Less, Chosen, Rank;
    var i := ChosenIsFirstLeast(s);
    var j :| 0 <= j < |s| && s[j] == c;
    if i < j && !Less(s[i], s[j]) {
      SameKeyDiffersInKind(s[i], s[j]);
    }
  }

  lemma SameKeyDiffersInKind(a: DenyCandidate, b: DenyCandidate)
    requires !Less(a, b) && !Less(b, a) && a.id == a.ref.name && b.id == b.ref.name
    requires a.ref != b.ref && Rank(a.ref.kind) <= Rank(b.ref.kind)
    ensures Rank(a.ref.kind) < Rank(b.ref.kind)
  {
    StringLessTotal(a.id, b.id);
  }

  lemma BeforeAsymmetric(a: DenyCandidate, b: DenyCandidate)
    ensures !(Before(a, b) && Before(b, a))
  {
    hide Less;
    LessWeakOrder(a, a, b);
  }

  // Two listings of the same candidates yield the same choice.
  lemma ChoiceIgnoresOrder(s: seq<DenyCandidate>, s': seq<DenyCandidate>)
    requires WellListed(s) && WellListed(s')
    requires forall c :: c in s <==> c in s'
    ensures |s| > 0 <==> |s'| > 0
    ensures |s| > 0 ==> Chosen(s) == Chosen(s')
  {
    hide Before, Chosen, WellListed;
    assert |s| > 0 ==> s[0] in s';
    assert |s'| > 0 ==> s'[0] in s;
    if |s| > 0 {
      ChosenIsMinimum(s, s[0]);
      ChosenIsMinimum(s', s'[0]);
      ChosenIsMinimum(s, Chosen(s'));
      ChosenIsMinimum(s', Chosen(s));
      BeforeAsymmetric(Chosen(s), Chosen(s'));
    }
  }

  /* The choice in plain terms */

  // a and b agree up to position k, where a ends or has the smaller character.
  ghost predicate PrecedesAt(a: string, b: string, k: nat) {
    k <= |a| && k < |b| && (forall i :: 0 <= i < k ==> a[i] == b[i]) && (k < |a| ==> a[k] < b[k])
  }

  // a is a proper prefix of b, or has the smaller character where the two first differ.
  ghost predicate Precedes(a: string, b: string) {
    exists k: nat :: PrecedesAt(a, b, k)
  }

  lemma {:induction false} StringLessIff(a: string, b: string)
    ensures StringLess(a, b) <==> Precedes(a, b)
    decreases |a|
  {
    hide Precedes;
    if |a| > 0 && |b| > 0 && a[0] == b[0] {
      StringLessIff(a[1..], b[1..]);
      TailsDecide(a, b);
    } else {
      HeadsDecide(a, b);
    }
  }

  lemma HeadsDecide(a: string, b: string)
    requires |a| > 0 && |b| > 0 ==> a[0] != b[0]
    ensures Precedes(a, b) <==> |b| > 0 && (|a| == 0 || a[0] < b[0])
  {
    assert PrecedesAt(a, b, 0) <==> |b| > 0 && (|a| == 0 || a[0] < b[0]);
  }

  lemma TailsDecide(a: string, b: string)
    requires |a| > 0 && |b| > 0 && a[0] == b[0]
    ensures Precedes(a, b) <==> Precedes(a[1..], b[1..])
  {
    hide PrecedesAt;
    if Precedes(a, b) {
      var k: nat :| PrecedesAt(a, b, k);
      NotAtHead(a, b);
      OneFurther(a, b, k - 1);
    }
    if Precedes(a[1..], b[1..]) {
      var k: nat :| PrecedesAt(a[1..], b[1..], k);
      OneFurther(a, b, k);
    }
  }

  lemma NotAtHead(a: string, b: string)
    requires |a| > 0 && |b| > 0 && a[0] == b[0]
    ensures !PrecedesAt(a, b, 0)
  {}

  lemma OneFurther(a: string, b: string, k: nat)
    requires |a| > 0 && |b| > 0 && a[0] == b[0]
    ensures PrecedesAt(a, b, k + 1) <==> PrecedesAt(a[1..], b[1..], k)
  {
    var a', b' := a[1..], b[1..];
    if PrecedesAt(a', b', k) {
      forall i | 0 <= i < k + 1
        ensures a[i] == b[i]
      {
        assert i > 0 ==> a'[i - 1] == b'[i - 1];
      }
    }
  }

  // The candidate that the evaluator should choose over another: it is due no later, one without a next
  // allowed time is never due, and among those due at the same time its id comes no later.
  ghost predicate NoLater(c: DenyCandidate, other: DenyCandidate) {
    && (other.nextAllowed.Some? ==> c.nextAllowed.Some? && c.nextAllowed.value <= other.nextAllowed.value)
    && (c.nextAllowed == other.nextAllowed ==> !Precedes(other.id, c.id))
  }

  lemma NotLessIsNoLater(c: DenyCandidate, other: DenyCandidate)
    requires !Less(other, c)
    ensures NoLater(c, other)
  {
    hide StringLess, Precedes;
    StringLessIff(other.id, c.id);
  }

  // Whatever is listed, what is chosen is due no later than anything else, and first by name then; and
  // among freezes and maintenance windows of one name and time it is the freeze.
  lemma ChosenIsEarliest(s: seq<DenyCandidate>, other: DenyCandidate)
    requires |s| > 0 && other in s
    ensures Chosen(s) in s && NoLater(Chosen(s), other)
    ensures WellListed(s) && Chosen(s).nextAllowed == other.nextAllowed && Chosen(s).id == other.id
            ==> !(Chosen(s).ref.kind.MaintenanceWindowKind? && other.ref.kind.ChangeFreezeKind?)
  {
    hide Less, Chosen, NoLater, StringLess;
    var i := ChosenIsFirstLeast(s);
    var j :| 0 <= j < |s| && s[j] == other;
    NotLessIsNoLater(s[i], s[j]);
    if s[i].nextAllowed == s[j].nextAllowed && s[i].id == s[j].id {
      SameKeyTies(s[i], s[j]);
    }
  }

  lemma SameKeyTies(a: DenyCandidate, b: DenyCandidate)
    requires a.nextAllowed == b.nextAllowed && a.id == b.id
    ensures !Less(a, b) && !Less(b, a)
  {
    StringLessTotal(a.id, b.id);
  }
}
