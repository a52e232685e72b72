/** The profiler's sample objects, their free list, and the chain they are kept in. */
module SampleObjects {
  import opened Words
  import opened Samples

  /** The links of a node. */
  datatype Links = Links(parent: Sample?, firstChild: Sample?, lastChild: Sample?, nextSibling: Sample?)

  class Sample {
    var link: Sample?  // used by the allocator's free list, and by flattening
    var nameHash: nat
    var uniqueId: nat
    var uniqueColour: seq<Byte>
    var parent: Sample?
    var firstChild: Sample?
    var lastChild: Sample?
    var nextSibling: Sample?
    var nbChildren: nat
    var usStart: nat
    var usEnd: nat
    var usLength: nat
    var usSampledLength: nat
    var usGpuIssueOnCpu: nat
    var callCount: nat
    var recurseDepth: nat
    var maxRecurseDepth: nat

    /** A node as first allocated. */
    constructor ()
      ensures link == null
    {
      link, parent, firstChild, lastChild, nextSibling := null, null, null, null, null;
      nameHash, uniqueId, uniqueColour, usGpuIssueOnCpu := 0, 0, [0, 0, 0], 0;
      nbChildren, usStart, usEnd, usLength, usSampledLength := 0, 0, 0, 0, 0;
      callCount, recurseDepth, maxRecurseDepth := 0, 0, 0;
    }

    /** Sample_Prepare: whatever the node was used for before is forgotten, but for its allocator link and
        its colour, which is computed when the tree is sent. */
    method Prepare(nameHash: nat, parent: Sample?)
      modifies this`nameHash, this`uniqueId, this`parent, this`firstChild, this`lastChild, this`nextSibling, this`nbChildren,
        this`usStart, this`usEnd, this`usLength, this`usSampledLength, this`usGpuIssueOnCpu, this`callCount, this`recurseDepth, this`maxRecurseDepth
      ensures Holds(Prepared(nameHash, 0)) && CurrentLinks() == Links(parent, null, null, null)
    {
      this.nameHash := nameHash;
      uniqueId := 0;
      this.parent := parent;
      firstChild, lastChild, nextSibling := null, null, null;
      usGpuIssueOnCpu := 0;
      nbChildren, usStart, usEnd, usLength, usSampledLength := 0, 0, 0, 0, 0;
      callCount, recurseDepth, maxRecurseDepth := 1, 0, 0;
    }

    /** The counters and times are those of `n`. */
    ghost predicate Holds(n: Info)
      reads this`nameHash, this`nbChildren, this`usStart, this`usEnd, this`usLength, this`usSampledLength,
        this`callCount, this`recurseDepth, this`maxRecurseDepth
    {
      && nameHash == n.nameHash && nbChildren == n.nbChildren
      && usStart == n.usStart && usEnd == n.usEnd && usLength == n.usLength && usSampledLength == n.usSampledLength
      && callCount == n.callCount && recurseDepth == n.recurseDepth && maxRecurseDepth == n.maxRecurseDepth
    }

    ghost function CurrentLinks(): Links
      reads this`parent, this`firstChild, this`lastChild, this`nextSibling
    {
      Links(parent, firstChild, lastChild, nextSibling)
    }
  }

  ghost predicate Distinct(objects: seq<Sample>) {
    forall i, j :: 0 <= i < j < |objects| ==> objects[i] != objects[j]
  }

  ghost predicate Disjoint(a: seq<Sample>, b: seq<Sample>) {
    forall x :: x in a ==> x !in b
  }

  /** Each sample is linked to the next one. */
  ghost predicate Threaded(s: seq<Sample>)
    reads s`link
  {
    forall i: nat :: i < |s| - 1 ==> LinkedToNext(s, i)
  }

  ghost predicate LinkedToNext(s: seq<Sample>, i: nat)
    requires i + 1 < |s|
    reads s`link
  {
    s[i].link == s[i + 1]
  }

  ghost function Last(s: seq<Sample>): Sample
    requires s != []
  {
    s[|s| - 1]
  }

  lemma DistinctParts(a: seq<Sample>, b: seq<Sample>)
    ensures Distinct(a + b) <==> Distinct(a) && Distinct(b) && Disjoint(a, b)
  {
    var s := a + b;
    assert forall i :: 0 <= i < |a| ==> s[i] == a[i];
    assert forall i :: 0 <= i < |b| ==> s[|a| + i] == b[i];
    if Distinct(a) && Distinct(b) && Disjoint(a, b) {
      forall i, j | 0 <= i < j < |s| ensures s[i] != s[j] {
        if i < |a| <= j {
          assert a[i] in a && b[j - |a|] in b;
        }
      }
    }
    if Distinct(s) {
      forall x | x in a ensures x !in b {
        var i :| 0 <= i < |a| && a[i] == x;
        forall j | 0 <= j < |b| ensures b[j] != x {
          assert s[i] != s[|a| + j];
        }
      }
    }
  }

  lemma ThreadedParts(a: seq<Sample>, b: seq<Sample>)
    requires a != [] && b != [] && Threaded(a) && Threaded(b) && Last(a).link == b[0]
    ensures Threaded(a + b)
  {
    var s := a + b;
    forall i: nat | i < |s| - 1 ensures LinkedToNext(s, i) {
      if i < |a| - 1 {
        assert LinkedToNext(a, i);
      } else if i >= |a| {
        assert LinkedToNext(b, i - |a|);
      }
    }
  }

  /** The last sample's link is not part of the thread. */
  method Relink(ghost here: seq<Sample>, last: Sample, next: Sample?)
    requires Distinct(here) && here != [] && last == Last(here) && Threaded(here)
    modifies last`link
    ensures Threaded(here) && last.link == next
  {
    last.link := next;
    forall i: nat | i < |here| - 1 ensures LinkedToNext(here, i) {
      assert old(LinkedToNext(here, i)) && here[i] != last;
    }
  }

  /** The allocator as one thread sees it between the steps of others (module FreeList has those):
      the chain of free samples and the counters. */
  class Allocator {
    var firstFree: Sample?
    var nbFree: int
    var nbInuse: int
    var nbAllocated: int
    ghost var free: seq<Sample>

    ghost predicate Valid()
      reads this, free`link
    {
      && Distinct(free) && Threaded(free)
      && firstFree == (if free == [] then null else free[0])
      && (free != [] ==> Last(free).link == null)
      && nbFree == |free|
    }

    /** Put a chain at the front of the free list. */
    method Push(start: Sample, end: Sample, ghost range: seq<Sample>)
      requires Valid() && range != [] && Distinct(range) && Threaded(range) && Disjoint(range, free)
      requires start == range[0] && end == Last(range)
      modifies this`firstFree, this`free, end`link
      ensures Distinct(free) && Threaded(free) && free == range + old(free)
      ensures firstFree == free[0] && Last(free).link == null
    {
      Relink(range, end, firstFree);
      assert end in range;
      forall i: nat | i < |free| - 1 ensures LinkedToNext(free, i) {
        assert old(LinkedToNext(free, i)) && free[i] in free;
      }
      if free != [] {
        assert Last(free) in free;
        ThreadedParts(range, free);
      } else {
        assert range + free == range;
      }
      DistinctParts(range, free);
      firstFree := start;
      free := range + free;
    }

    constructor ()
      ensures Valid() && free == [] && nbInuse == nbAllocated == 0
    {
      firstFree, free := null, [];
      nbFree, nbInuse, nbAllocated := 0, 0, 0;
    }

    /** Take the first object off the list, if there is one. */
    method Pop() returns (sample: Sample?)
      requires Valid()
      modifies this`firstFree, this`free, free`link
      ensures old(free) == [] ==> sample == null && free == []
      ensures old(free) != [] ==> sample == old(free)[0] && free == old(free)[1..] && sample.link == null
      ensures Distinct(free) && Threaded(free) && firstFree == (if free == [] then null else free[0])
      ensures free != [] ==> Last(free).link == null
    {
      sample := firstFree;
      if sample != null {
        assert |free| > 1 ==> LinkedToNext(free, 0);
        firstFree := sample.link;
        sample.link := null;
        ghost var all := free;
        free := free[1..];
        forall i: nat | i < |free| - 1 ensures LinkedToNext(free, i) {
          assert old(LinkedToNext(free, i + 1)) && free[i] == all[i + 1];
        }
      }
    }

    /** An object off the list, or a new one when it has run out. */
    method Alloc() returns (sample: Sample)
      requires Valid()
      modifies this, free`link
      ensures Valid() && sample !in free && sample.link == null && nbInuse == old(nbInuse) + 1
      ensures old(free) == [] ==> fresh(sample) && free == [] && nbAllocated == old(nbAllocated) + 1
      ensures old(free) != [] ==> sample == old(free)[0] && free == old(free)[1..] && nbAllocated == old(nbAllocated)
    {
      var popped := Pop();
      if popped == null {
        sample := new Sample();
        nbAllocated := nbAllocated + 1;
      } else {
        sample := popped;
        nbFree := nbFree - 1;
      }
      nbInuse := nbInuse + 1;
    }

    method Free(sample: Sample)
      requires Valid() && sample !in free
      modifies this, sample`link
      ensures Valid() && free == [sample] + old(free)
      ensures nbFree == old(nbFree) + 1 && nbInuse == old(nbInuse) - 1
    {
      Push(sample, sample, [sample]);
      nbInuse := nbInuse - 1;
      nbFree := nbFree + 1;
    }

    method FreeRange(start: Sample, end: Sample, count: nat, ghost range: seq<Sample>)
      requires Valid() && range != [] && Distinct(range) && Threaded(range) && Disjoint(range, free)
      requires start == range[0] && end == Last(range) && count == |range|
      modifies this, end`link
      ensures Valid() && free == range + old(free)
      ensures nbFree == old(nbFree) + count && nbInuse == old(nbInuse) - count
    {
      Push(start, end, range);
      nbInuse := nbInuse - count;
      nbFree := nbFree + count;
    }
  }
}
