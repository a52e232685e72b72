/** What a sample tree means: the calls of a well-nested run folded into a report, call by call, by a
    recursion over the calls alone. The machine of linked nodes and a cursor computes it. */
module SampleReports {
  import opened Options
  import opened Words
  import opened Samples
  import opened SampleRuns

  /** What is reported of a node, times apart. */
  datatype Report = Report(nameHash: nat, calls: nat, deepest: nat, children: seq<Report>)

  /** The first report with the given name. */
  function FindReport(reports: seq<Report>, nameHash: nat): (r: Option<nat>)
    ensures r.Some? ==> r.value < |reports|
  {
    if reports == [] then None
    else if reports[0].nameHash == nameHash then Some(0)
    else
      match FindReport(reports[1..], nameHash)
      case None => None
      case Some(k) => Some(k + 1)
  }

  /** A call made while `r` is open with `depth` recursive calls folded into it: an aggregate call goes to
      the first child of its name, if there is one; a recursive call of the same name is folded in; any
      other call opens a new last child. */
  function ExecuteOne(r: Report, depth: nat, c: Call): Report
    decreases c
  {
    var k := FindReport(r.children, c.nameHash);
    if c.aggregate && k.Some? then
      var child := r.children[k.value];
      r.(children := r.children[k.value := Execute(child.(calls := Wrap32(child.calls + 1)), 0, c.body)])
    else if c.recursive && r.nameHash == c.nameHash then
      Execute(Report(r.nameHash, Wrap32(r.calls + 1), if depth + 1 > r.deepest then depth + 1 else r.deepest, r.children),
              depth + 1, c.body)
    else
      r.(children := r.children + [Execute(Opened(c), 0, c.body)])
  }

  function Execute(r: Report, depth: nat, calls: seq<Call>): Report
    decreases calls
  {
    if calls == [] then r else Execute(ExecuteOne(r, depth, calls[0]), depth, calls[1..])
  }

  /** A node just opened. */
  function Opened(c: Call): Report {
    Report(c.nameHash, 1, 0, [])
  }

  // ---------------------------------------------------------------------------------------------
  // The report of a node of the machine
  // ---------------------------------------------------------------------------------------------

  ghost function ReportOf(nodes: seq<Info>, i: nat): Report
    requires Shape(nodes) && i < |nodes|
    decreases |nodes| - i, 1
  {
    assert ChildrenRight(nodes, i);
    var n := nodes[i];
    Report(n.nameHash, n.callCount, n.maxRecurseDepth, ReportsOf(nodes, i, n.children))
  }

  ghost function ReportsOf(nodes: seq<Info>, i: nat, children: seq<nat>): (r: seq<Report>)
    requires Shape(nodes) && forall c :: c in children ==> i < c < |nodes|
    ensures |r| == |children|
    decreases |nodes| - i, 0, |children|
  {
    if children == [] then []
    else
      Split(children);
      [ReportOf(nodes, children[0])] + ReportsOf(nodes, i, children[1..])
  }

  lemma {:induction false} ReportsAt(nodes: seq<Info>, i: nat, children: seq<nat>, k: nat)
    requires Shape(nodes) && (forall c :: c in children ==> i < c < |nodes|) && k < |children|
    ensures children[k] < |nodes| && ReportsOf(nodes, i, children)[k] == ReportOf(nodes, children[k])
    decreases k
  {
    Split(children);
    if k > 0 {
      ReportsAt(nodes, i, children[1..], k - 1);
    }
  }

  /** What of a node the report depends on. */
  predicate SameFields(a: Info, b: Info) {
    a.nameHash == b.nameHash && a.callCount == b.callCount && a.maxRecurseDepth == b.maxRecurseDepth && a.children == b.children
  }

  /** The report of a node depends on the nodes below it alone. */
  lemma {:induction false} ReportSame(a: seq<Info>, b: seq<Info>, i: nat)
    requires Shape(a) && Shape(b) && i < |a| <= |b|
    requires forall x: nat :: x < |a| && IsAncestor(a, i, x) ==> SameFields(a[x], b[x])
    ensures ReportOf(a, i) == ReportOf(b, i)
    decreases |a| - i, 1
  {
    assert ChildrenRight(a, i) && ChildrenRight(b, i) && IsAncestor(a, i, i);
    ReportsSame(a, b, i, a[i].children);
  }

  lemma {:induction false} ReportsSame(a: seq<Info>, b: seq<Info>, i: nat, children: seq<nat>)
    requires Shape(a) && Shape(b) && |a| <= |b| && i < |a|
    requires forall c :: c in children ==> i < c < |a| && a[c].parent == i
    requires forall x: nat :: x < |a| && IsAncestor(a, i, x) ==> SameFields(a[x], b[x])
    ensures ReportsOf(a, i, children) == ReportsOf(b, i, children)
    decreases |a| - i, 0, |children|
  {
    if children != [] {
      Split(children);
      var c := children[0];
      assert IsAncestor(a, i, i) && IsAncestor(a, i, c);
      forall x: nat | x < |a| && IsAncestor(a, c, x) ensures SameFields(a[x], b[x]) {
        AncestorTrans(a, i, c, x);
      }
      ReportSame(a, b, c);
      ReportsSame(a, b, i, children[1..]);
    }
  }

  /** Looking up a child by name is looking up its report. */
  lemma {:induction false} FindSame(nodes: seq<Info>, i: nat, children: seq<nat>, nameHash: nat)
    requires Shape(nodes) && forall c :: c in children ==> i < c < |nodes|
    ensures var found, k := FindChild(nodes, children, nameHash), FindReport(ReportsOf(nodes, i, children), nameHash);
      (found.None? <==> k.None?) && (k.Some? ==> children[k.value] == found.value)
    decreases |children|
  {
    if children != [] {
      Split(children);
      FindSame(nodes, i, children[1..], nameHash);
      var reports := ReportsOf(nodes, i, children);
      assert reports[1..] == ReportsOf(nodes, i, children[1..]);
    }
  }

  /** Nothing but the nodes at and below `top`, and new ones, was touched. */
  ghost predicate Outside(a: seq<Info>, b: seq<Info>, top: nat) {
    |a| <= |b| && forall x: nat :: x < |a| && !IsAncestor(a, top, x) ==> SameFields(a[x], b[x])
  }

  /** Ending a call that does not end at the root changes no reported field. */
  lemma EndFields(t: State, end: nat)
    requires Inv(t) && t.current != 0 && (t.nodes[t.current].recurseDepth > 0 || t.nodes[t.current].parent != 0)
    ensures var u := End(t, end);
      Inv(u) && |u.nodes| == |t.nodes| && forall x: nat :: x < |t.nodes| ==> SameFields(t.nodes[x], u.nodes[x])
  {
    EndKeepsInv(t, end);
  }

  /** Old nodes stay above and below the nodes they were above and below. */
  lemma AncestorsKept(s: State, t: State, a: nat, x: nat)
    requires s.current != 0 && Restored(s, t) && x < |s.nodes|
    ensures IsAncestor(s.nodes, a, x) == IsAncestor(t.nodes, a, x)
  {
    forall j: nat | j < |s.nodes| ensures s.nodes[j].parent == t.nodes[j].parent {
      assert SameNode(s, t, j);
    }
    AncestorsExtend(s.nodes, t.nodes, a, x);
  }

  lemma {:induction false} ReportsAppend(nodes: seq<Info>, i: nat, children: seq<nat>, c: nat)
    requires Shape(nodes) && i < c < |nodes| && forall x :: x in children ==> i < x < |nodes|
    ensures forall x :: x in children + [c] ==> i < x < |nodes|
    ensures ReportsOf(nodes, i, children + [c]) == ReportsOf(nodes, i, children) + [ReportOf(nodes, c)]
    decreases |children|
  {
    if children == [] {
      assert children + [c] == [c] && [c][1..] == [];
    } else {
      Split(children);
      assert (children + [c])[1..] == children[1..] + [c];
      ReportsAppend(nodes, i, children[1..], c);
    }
  }

  // ---------------------------------------------------------------------------------------------
  // A call, by the branch it takes
  // ---------------------------------------------------------------------------------------------

  /** What a call made at `s` and over at `u` does. */
  ghost predicate Does(s: State, u: State, r: Report) {
    && Inv(s) && Inv(u) && Restored(s, u) && s.current != 0
    && Outside(s.nodes, u.nodes, s.current) && ReportOf(u.nodes, s.current) == r
  }

  /** A call that opened a new node. */
  lemma NewDoes(s: State, c: Call, t: State, r: Report)
    requires Inv(s) && s.current != 0 && c.nameHash != 0 && Does(Extend(s, c.nameHash, c.begin), t, r)
    requires Inv(End(t, c.end)) && Restored(s, End(t, c.end))
    ensures var r0 := ReportOf(s.nodes, s.current);
      Does(s, End(t, c.end), r0.(children := r0.children + [r]))
  {
    var b, u := Extend(s, c.nameHash, c.begin), End(t, c.end);
    var n, p := |s.nodes|, s.current;
    assert SameNode(b, t, n) && SameNode(b, t, p);
    EndFields(t, c.end);
    forall x: nat | x < n ensures SameFields(b.nodes[x], u.nodes[x]) {
      if IsAncestor(b.nodes, n, x) {
        AncestorsBefore(b.nodes, n, x);
      }
    }
    ReportSame(t.nodes, u.nodes, n);
    assert ChildrenRight(s.nodes, p) && ChildrenRight(u.nodes, p);
    NewChildren(s, u, p, n);
    ReportsAppend(u.nodes, p, s.nodes[p].children, n);
  }

  lemma NewChildren(s: State, u: State, p: nat, n: nat)
    requires Inv(s) && Shape(u.nodes) && p == s.current && n == |s.nodes| < |u.nodes|
    requires forall x: nat :: x < n && x != p ==> SameFields(s.nodes[x], u.nodes[x])
    ensures (forall c :: c in s.nodes[p].children ==> p < c < |u.nodes|)
    ensures ReportsOf(u.nodes, p, s.nodes[p].children) == ReportOf(s.nodes, p).children
    ensures Outside(s.nodes, u.nodes, p)
  {
    assert ChildrenRight(s.nodes, p) && IsAncestor(s.nodes, p, p);
    forall c, x: nat | c in s.nodes[p].children && x < n && IsAncestor(s.nodes, c, x) ensures x != p {
      AncestorsBefore(s.nodes, c, x);
    }
    ChildrenSame(s.nodes, u.nodes, p, s.nodes[p].children);
  }

  /** Children none of which has the node `p`, the only one touched, below it. */
  lemma {:induction false} ChildrenSame(a: seq<Info>, b: seq<Info>, p: nat, children: seq<nat>)
    requires Shape(a) && Shape(b) && p < |a| <= |b|
    requires forall x: nat :: x < |a| && x != p ==> SameFields(a[x], b[x])
    requires forall c :: c in children ==> p < c < |a|
    ensures ReportsOf(a, p, children) == ReportsOf(b, p, children)
    decreases |children|
  {
    if children != [] {
      Split(children);
      var c := children[0];
      forall x: nat | x < |a| && IsAncestor(a, c, x) ensures x != p {
        AncestorsBefore(a, c, x);
      }
      ReportSame(a, b, c);
      ChildrenSame(a, b, p, children[1..]);
    }
  }

  /** A recursive call folded into the open node. */
  lemma FoldedDoes(s: State, t: State, end: nat, r: Report)
    requires Inv(s) && s.current != 0 && Does(Recurse(s), t, r) && s.nodes[s.current].recurseDepth + 1 < WORD16
    requires Inv(End(t, end)) && Restored(s, End(t, end))
    ensures Does(s, End(t, end), r)
  {
    var b, u := Recurse(s), End(t, end);
    var p := s.current;
    assert SameNode(b, t, p);
    EndFields(t, end);
    ReportSame(t.nodes, u.nodes, p);
    forall x: nat | x < |s.nodes| && !IsAncestor(s.nodes, p, x) ensures SameFields(s.nodes[x], u.nodes[x]) {
      SameAncestors(s.nodes, b.nodes, p, x);
      assert IsAncestor(s.nodes, p, p);
    }
  }

  lemma FoldedReport(s: State)
    requires Inv(s) && s.current != 0 && s.nodes[s.current].recurseDepth + 1 < WORD16
    ensures Inv(Recurse(s))
    ensures var r, depth := ReportOf(s.nodes, s.current), s.nodes[s.current].recurseDepth + 1;
      ReportOf(Recurse(s).nodes, s.current) ==
        Report(r.nameHash, Wrap32(r.calls + 1), if depth > r.deepest then depth else r.deepest, r.children)
  {
    RecurseKeepsInv(s);
    var p := s.current;
    assert ChildrenRight(s.nodes, p);
    ChildrenSame(s.nodes, Recurse(s).nodes, p, s.nodes[p].children);
  }

  /** A call that returned to the child `k`, at place `j` among the children. */
  lemma AgainDoes(s: State, k: nat, j: nat, now: nat, t: State, end: nat, r: Report)
    requires Inv(s) && s.current != 0 && j < |s.nodes[s.current].children| && s.nodes[s.current].children[j] == k < |s.nodes|
    requires Does(Reenter(s, k, now), t, r)
    requires s.nodes[k].parent == s.current && s.nodes[k].recurseDepth == 0
    requires Inv(End(t, end)) && Restored(s, End(t, end))
    ensures var r0 := ReportOf(s.nodes, s.current);
      Does(s, End(t, end), r0.(children := r0.children[j := r]))
  {
    var b, u := Reenter(s, k, now), End(t, end);
    var p := s.current;
    assert SameNode(b, t, k) && IsAncestor(s.nodes, k, k) && IsAncestor(s.nodes, p, p);
    EndFields(t, end);
    ReportSame(t.nodes, u.nodes, k);
    forall x: nat | x < |s.nodes| && !IsAncestor(s.nodes, k, x) ensures SameFields(s.nodes[x], u.nodes[x]) {
      SameAncestors(s.nodes, b.nodes, k, x);
    }
    assert Outside(s.nodes, u.nodes, k);
    forall x: nat | x < |s.nodes| && !IsAncestor(s.nodes, p, x) ensures SameFields(s.nodes[x], u.nodes[x]) {
      if IsAncestor(s.nodes, k, x) {
        assert IsAncestor(s.nodes, p, k);
        AncestorTrans(s.nodes, p, k, x);
      }
    }
    AgainReport(s, u, k, j, r);
  }

  lemma AgainReport(s: State, u: State, k: nat, j: nat, r: Report)
    requires Inv(s) && Inv(u) && s.current < |u.nodes| && j < |s.nodes[s.current].children|
    requires s.nodes[s.current].children[j] == k < |s.nodes| && s.nodes[k].parent == s.current
    requires Outside(s.nodes, u.nodes, k) && k < |u.nodes| && ReportOf(u.nodes, k) == r
    ensures var r0 := ReportOf(s.nodes, s.current); ReportOf(u.nodes, s.current) == r0.(children := r0.children[j := r])
  {
    var p := s.current;
    var children := s.nodes[p].children;
    assert ChildrenRight(s.nodes, p) && ChildrenRight(u.nodes, p) && k in children;
    if IsAncestor(s.nodes, k, p) {
      AncestorsBefore(s.nodes, k, p);
    }
    assert u.nodes[p].children == children;
    var before, after := ReportOf(s.nodes, p).children, ReportOf(u.nodes, p).children;
    forall i | 0 <= i < |children| ensures after[i] == if i == j then r else before[i] {
      ReportsAt(s.nodes, p, children, i);
      ReportsAt(u.nodes, p, children, i);
      if i != j {
        OtherChild(s.nodes, u.nodes, p, k, children[i]);
      }
    }
    assert after == before[j := r];
  }

  lemma OtherChild(a: seq<Info>, b: seq<Info>, p: nat, k: nat, c: nat)
    requires Shape(a) && Shape(b) && Outside(a, b, k) && 0 < k < |a| && 0 < c < |a| && c != k
    requires a[k].parent == p == a[c].parent
    ensures ReportOf(a, c) == ReportOf(b, c)
  {
    forall x: nat | x < |a| && IsAncestor(a, c, x) ensures !IsAncestor(a, k, x) {
      SiblingsApart(a, if c < k then c else k, if c < k then k else c, x);
    }
    ReportSame(a, b, c);
  }

  lemma AgainOpens(s: State, k: nat, now: nat)
    requires Inv(s) && k in s.nodes[s.current].children && k < |s.nodes|
    ensures var b := Reenter(s, k, now);
      && Inv(b) && ReportOf(b.nodes, k) == ReportOf(s.nodes, k).(calls := Wrap32(s.nodes[k].callCount + 1))
      && s.nodes[k].parent == s.current && s.nodes[k].recurseDepth == 0 && b.nodes[k].recurseDepth == 0
  {
    ReenterKeepsInv(s, k, now);
    assert ChildrenRight(s.nodes, s.current) && ChildrenRight(s.nodes, k) && DepthRight(s, k);
    if s.nodes[k].recurseDepth > 0 {
      AncestorsBefore(s.nodes, k, s.current);
    }
    ChildrenSame(s.nodes, Reenter(s, k, now).nodes, k, s.nodes[k].children);
  }

  // ---------------------------------------------------------------------------------------------
  // Whole runs
  // ---------------------------------------------------------------------------------------------

  /** What is known of a call before looking at the branch it takes: the state `b` after its Begin, the
      state `t` before its End, and the state `u` after it. */
  ghost predicate Parts(s: State, c: Call, b: State, t: State, u: State) {
    && Inv(s) && s.current != 0 && c.nameHash != 0 && HasRoom(s, c)
    && Inv(b) && b.current != 0 && b == Begin(s, c.nameHash, c.aggregate, c.recursive, c.begin)
    && Inv(t) && t.current != 0 && u == End(t, c.end) && Inv(u) && Restored(s, u)
  }

  lemma CallParts(s: State, c: Call) returns (b: State, t: State)
    requires Inv(s) && s.current != 0 && c.nameHash != 0 && Named(c.body) && CallHasRoom(s, c)
    ensures Parts(s, c, b, t, RunCall(s, c)) && t == RunCalls(b, c.body) && CallsHaveRoom(b, c.body)
  {
    b := Begin(s, c.nameHash, c.aggregate, c.recursive, c.begin);
    t := RunCalls(b, c.body);
    RunCallRestores(s, c);
    BeginKeepsInv(s, c.nameHash, c.aggregate, c.recursive, c.begin);
    BeginCases(s, c);
    RunRestores(b, c.body);
    EndKeepsInv(t, c.end);
  }

  lemma NewExecutes(s: State, c: Call, b: State, t: State, u: State, r: Report)
    requires Parts(s, c, b, t, u) && Does(b, t, r) && !Collapses(s, c)
    requires !(c.aggregate && FindChild(s.nodes, s.nodes[s.current].children, c.nameHash).Some?)
    ensures ReportOf(b.nodes, b.current) == Opened(c) && b.nodes[b.current].recurseDepth == 0
    ensures var r0 := ReportOf(s.nodes, s.current); Does(s, u, r0.(children := r0.children + [r]))
  {
    NewDoes(s, c, t, r);
  }

  lemma FoldedExecutes(s: State, c: Call, b: State, t: State, u: State, r: Report)
    requires Parts(s, c, b, t, u) && Does(b, t, r) && Collapses(s, c)
    ensures var r0, depth := ReportOf(s.nodes, s.current), s.nodes[s.current].recurseDepth + 1;
      && b.current == s.current && b.nodes[b.current].recurseDepth == depth
      && ReportOf(b.nodes, b.current) ==
           Report(r0.nameHash, Wrap32(r0.calls + 1), if depth > r0.deepest then depth else r0.deepest, r0.children)
    ensures Does(s, u, r)
  {
    FoldedReport(s);
    FoldedDoes(s, t, c.end, r);
  }

  lemma AgainExecutes(s: State, c: Call, b: State, t: State, u: State, k: nat, j: nat, r: Report)
    requires Parts(s, c, b, t, u) && Does(b, t, r) && c.aggregate
    requires FindChild(s.nodes, s.nodes[s.current].children, c.nameHash) == Some(k)
    requires j < |s.nodes[s.current].children| && s.nodes[s.current].children[j] == k
    ensures var r0 := ReportOf(s.nodes, s.current);
      && j < |r0.children| && b.nodes[b.current].recurseDepth == 0
      && ReportOf(b.nodes, b.current) == r0.children[j].(calls := Wrap32(r0.children[j].calls + 1))
      && Does(s, u, r0.(children := r0.children[j := r]))
  {
    assert ChildrenRight(s.nodes, s.current);
    AgainOpens(s, k, c.begin);
    ReportsAt(s.nodes, s.current, s.nodes[s.current].children, j);
    AgainDoes(s, k, j, c.begin, t, c.end, r);
  }

  /** One call with everything in it does to the report of the open node what the recursion over the
      calls says, and touches nothing else. */
  lemma {:induction false} CallExecutes(s: State, c: Call)
    requires Inv(s) && s.current != 0 && c.nameHash != 0 && Named(c.body) && CallHasRoom(s, c)
    ensures Does(s, RunCall(s, c), ExecuteOne(ReportOf(s.nodes, s.current), s.nodes[s.current].recurseDepth, c))
    decreases c
  {
    var b, t := CallParts(s, c);
    CallsExecute(b, c.body);
    var r := Execute(ReportOf(b.nodes, b.current), b.nodes[b.current].recurseDepth, c.body);
    BranchExecutes(s, c, b, t, RunCall(s, c), r);
  }

  lemma AgainBranch(s: State, c: Call, b: State, t: State, u: State, k: nat, j: nat, r: Report)
    requires Parts(s, c, b, t, u) && Does(b, t, r) && c.aggregate
    requires r == Execute(ReportOf(b.nodes, b.current), b.nodes[b.current].recurseDepth, c.body)
    requires FindChild(s.nodes, s.nodes[s.current].children, c.nameHash) == Some(k)
    requires FindReport(ReportOf(s.nodes, s.current).children, c.nameHash) == Some(j)
    requires j < |s.nodes[s.current].children| && s.nodes[s.current].children[j] == k
    ensures Does(s, u, ExecuteOne(ReportOf(s.nodes, s.current), s.nodes[s.current].recurseDepth, c))
  {
    AgainExecutes(s, c, b, t, u, k, j, r);
    OneAgain(ReportOf(s.nodes, s.current), s.nodes[s.current].recurseDepth, c, j, r);
  }

  lemma FoldedBranch(s: State, c: Call, b: State, t: State, u: State, r: Report)
    requires Parts(s, c, b, t, u) && Does(b, t, r) && Collapses(s, c)
    requires r == Execute(ReportOf(b.nodes, b.current), b.nodes[b.current].recurseDepth, c.body)
    requires !(c.aggregate && FindReport(ReportOf(s.nodes, s.current).children, c.nameHash).Some?)
    ensures Does(s, u, ExecuteOne(ReportOf(s.nodes, s.current), s.nodes[s.current].recurseDepth, c))
  {
    FoldedExecutes(s, c, b, t, u, r);
    OneFolded(ReportOf(s.nodes, s.current), s.nodes[s.current].recurseDepth, c, r);
  }

  lemma NewBranch(s: State, c: Call, b: State, t: State, u: State, r: Report)
    requires Parts(s, c, b, t, u) && Does(b, t, r) && !Collapses(s, c)
    requires r == Execute(ReportOf(b.nodes, b.current), b.nodes[b.current].recurseDepth, c.body)
    requires !(c.aggregate && FindChild(s.nodes, s.nodes[s.current].children, c.nameHash).Some?)
    requires !(c.aggregate && FindReport(ReportOf(s.nodes, s.current).children, c.nameHash).Some?)
    ensures Does(s, u, ExecuteOne(ReportOf(s.nodes, s.current), s.nodes[s.current].recurseDepth, c))
  {
    NewExecutes(s, c, b, t, u, r);
    OneNew(ReportOf(s.nodes, s.current), s.nodes[s.current].recurseDepth, c, r);
  }

  lemma BranchExecutes(s: State, c: Call, b: State, t: State, u: State, r: Report)
    requires Parts(s, c, b, t, u) && Does(b, t, r)
    requires r == Execute(ReportOf(b.nodes, b.current), b.nodes[b.current].recurseDepth, c.body)
    ensures Does(s, u, ExecuteOne(ReportOf(s.nodes, s.current), s.nodes[s.current].recurseDepth, c))
  {
    var found, k := FindBoth(s, c.nameHash);
    if c.aggregate && found.Some? {
      AgainBranch(s, c, b, t, u, found.value, k.value, r);
    } else if Collapses(s, c) {
      FoldedBranch(s, c, b, t, u, r);
    } else {
      NewBranch(s, c, b, t, u, r);
    }
  }

  lemma FindBoth(s: State, nameHash: nat) returns (found: Option<nat>, k: Option<nat>)
    requires Inv(s)
    ensures var children := s.nodes[s.current].children;
      && found == FindChild(s.nodes, children, nameHash)
      && k == FindReport(ReportOf(s.nodes, s.current).children, nameHash)
      && (found.None? <==> k.None?) && (k.Some? ==> k.value < |children| && children[k.value] == found.value)
  {
    assert ChildrenRight(s.nodes, s.current);
    FindSame(s.nodes, s.current, s.nodes[s.current].children, nameHash);
    found := FindChild(s.nodes, s.nodes[s.current].children, nameHash);
    k := FindReport(ReportOf(s.nodes, s.current).children, nameHash);
  }

  // The three ways of a call, as the recursion has them.

  lemma OneAgain(r0: Report, depth: nat, c: Call, k: nat, r: Report)
    requires c.aggregate && FindReport(r0.children, c.nameHash) == Some(k)
    requires r == Execute(r0.children[k].(calls := Wrap32(r0.children[k].calls + 1)), 0, c.body)
    ensures ExecuteOne(r0, depth, c) == r0.(children := r0.children[k := r])
  {
  }

  lemma OneFolded(r0: Report, depth: nat, c: Call, r: Report)
    requires !(c.aggregate && FindReport(r0.children, c.nameHash).Some?) && c.recursive && r0.nameHash == c.nameHash
    requires r == Execute(Report(r0.nameHash, Wrap32(r0.calls + 1), if depth + 1 > r0.deepest then depth + 1 else r0.deepest,
                                 r0.children), depth + 1, c.body)
    ensures ExecuteOne(r0, depth, c) == r
  {
  }

  lemma OneNew(r0: Report, depth: nat, c: Call, r: Report)
    requires !(c.aggregate && FindReport(r0.children, c.nameHash).Some?) && !(c.recursive && r0.nameHash == c.nameHash)
    requires r == Execute(Opened(c), 0, c.body)
    ensures ExecuteOne(r0, depth, c) == r0.(children := r0.children + [r])
  {
  }

  lemma {:induction false} CallsExecute(s: State, calls: seq<Call>)
    requires Inv(s) && s.current != 0 && Named(calls) && CallsHaveRoom(s, calls)
    ensures Does(s, RunCalls(s, calls), Execute(ReportOf(s.nodes, s.current), s.nodes[s.current].recurseDepth, calls))
    decreases calls
  {
    RunRestores(s, calls);
    if calls != [] {
      NamedParts(calls);
      var t := RunCall(s, calls[0]);
      RunCallRestores(s, calls[0]);
      CallExecutes(s, calls[0]);
      CallsExecute(t, calls[1..]);
      assert SameNode(s, t, s.current);
      OutsideTrans(s, t, RunCalls(t, calls[1..]));
    }
  }

  lemma OutsideTrans(s: State, t: State, u: State)
    requires Inv(s) && Inv(t) && s.current != 0 && Restored(s, t) && t.current == s.current
    requires Outside(s.nodes, t.nodes, s.current) && Outside(t.nodes, u.nodes, s.current)
    ensures Outside(s.nodes, u.nodes, s.current)
  {
    forall x: nat | x < |s.nodes| && !IsAncestor(s.nodes, s.current, x) ensures SameFields(s.nodes[x], u.nodes[x]) {
      AncestorsKept(s, t, s.current, x);
    }
  }

  /** The tree sent for a call made at the root. */
  function Sent(c: Call): Report {
    Execute(Opened(c), 0, c.body)
  }

  lemma RootCallExecutes(s: State, c: Call)
    requires Inv(s) && s.current == 0 && c.nameHash != 0 && Named(c.body) && CallHasRoom(s, c)
    ensures var u := RunCall(s, c);
      && Inv(u) && |u.sent| == |s.sent| + 1 && (forall i: nat :: i < |s.sent| ==> u.sent[i] == s.sent[i])
      && Reported(u.sent[|s.sent|], c)
  {
    var b := Begin(s, c.nameHash, c.aggregate, c.recursive, c.begin);
    BeginKeepsInv(s, c.nameHash, c.aggregate, c.recursive, c.begin);
    assert ChildrenRight(s.nodes, 0) && s.nodes[0].nameHash == 0;
    assert b == Extend(s, c.nameHash, c.begin) && b.current == 1;
    assert ReportOf(b.nodes, 1) == Opened(c);
    CallsExecute(b, c.body);
    var t := RunCalls(b, c.body);
    assert SameNode(b, t, 1);
    EndKeepsInv(t, c.end);
    LastFields(t, c.end);
  }

  /** The end that sends the tree changes no reported field of it either. */
  lemma LastFields(t: State, end: nat)
    requires Inv(t) && t.current == 1 && t.nodes[1].parent == 0 && t.nodes[1].recurseDepth == 0 && Inv(End(t, end))
    ensures var u := End(t, end);
      && |u.sent| == |t.sent| + 1 && u.sent[..|t.sent|] == t.sent
      && SentRight(u.sent[|t.sent|]) && ReportOf(u.sent[|t.sent|], 1) == ReportOf(t.nodes, 1)
  {
    var u := End(t, end);
    assert u.sent[|t.sent|] in u.sent;
    ReportSame(t.nodes, u.sent[|t.sent|], 1);
  }

  /** From the start: well-nested calls with room send one tree for each call made at the root, and its
      report is what the recursion over that call makes of it. */
  lemma {:induction false} TreesAreReports(s: State, calls: seq<Call>)
    requires Inv(s) && s.current == 0 && Named(calls) && CallsHaveRoom(s, calls)
    ensures var t := RunCalls(s, calls);
      && |t.sent| == |s.sent| + |calls| && (forall i: nat :: i < |s.sent| ==> t.sent[i] == s.sent[i])
      && forall j: nat :: j < |calls| ==> Reported(t.sent[|s.sent| + j], calls[j])
    decreases calls
  {
    if calls != [] {
      NamedParts(calls);
      var u := RunCall(s, calls[0]);
      RunCallRestores(s, calls[0]);
      RootCallExecutes(s, calls[0]);
      TreesAreReports(u, calls[1..]);
      var t := RunCalls(u, calls[1..]);
      forall j: nat | j < |calls| ensures Reported(t.sent[|s.sent| + j], calls[j]) {
        if j > 0 {
          assert Reported(t.sent[|u.sent| + (j - 1)], calls[1..][j - 1]);
        }
      }
    }
  }

  ghost predicate Reported(nodes: seq<Info>, c: Call) {
    SentRight(nodes) && ReportOf(nodes, 1) == Sent(c)
  }

  // ---------------------------------------------------------------------------------------------
  // Calls without flags
  // ---------------------------------------------------------------------------------------------

  ghost predicate Flagless(calls: seq<Call>) {
    forall c :: c in calls ==> !c.aggregate && !c.recursive && Flagless(c.body)
  }

  /** The calls themselves, as a tree. */
  function CallTree(c: Call): Report
    decreases c, 0
  {
    Report(c.nameHash, 1, 0, CallTrees(c.body))
  }

  function CallTrees(calls: seq<Call>): seq<Report>
    decreases calls
  {
    if calls == [] then [] else [CallTree(calls[0])] + CallTrees(calls[1..])
  }

  /** Without flags every call is a node, and the trees sent are the calls. */
  lemma {:induction false} FlaglessIsCallTree(r: Report, depth: nat, calls: seq<Call>)
    requires Flagless(calls)
    ensures Execute(r, depth, calls) == r.(children := r.children + CallTrees(calls))
    decreases calls
  {
    if calls == [] {
      assert r.children + [] == r.children;
    } else {
      var c := calls[0];
      assert c in calls;
      FlaglessIsCallTree(Opened(c), 0, c.body);
      assert [] + CallTrees(c.body) == CallTrees(c.body);
      FlaglessIsCallTree(r.(children := r.children + [CallTree(c)]), depth, calls[1..]);
      assert r.children + [CallTree(c)] + CallTrees(calls[1..]) == r.children + CallTrees(calls);
    }
  }
}
