/**
 The two validators of a document: one stops at the first problem, the other lists them all. Paths
 are visited in an order given from outside, which stands for the insertion order of the path map.
 */
module OpenApiValidate {
  import opened Wrappers
  import opened OpenApiJson
  import opened OpenApi

  datatype Problem =
    | MissingField(field: Name)
    | UnsupportedVersion(version: string)
    | NoLeadingSlash(path: string)
    | UnmatchedClose(path: string, at: int)
    | UnmatchedOpen(path: string, at: int)
    | EmptyParameter(path: string)
    | DoubleSlash(path: string)

  const SUPPORTED := ["3.0.0", "3.0.1", "3.0.2", "3.0.3", "3.1.0"]

  predicate Supported(version: string) { version in SUPPORTED }

  // ---------- Braces ----------

  function Count(p: string, c: char): nat {
    if p == "" then 0 else Count(p[..|p| - 1], c) + (if p[|p| - 1] == c then 1 else 0)
  }

  function Opens(p: string): nat { Count(p, '{') }

  function Closes(p: string): nat { Count(p, '}') }

  lemma {:induction false} CountIsMultiplicity(p: string, c: char)
    ensures Count(p, c) == multiset(p)[c]
  {
    if p != "" {
      CountIsMultiplicity(p[..|p| - 1], c);
      assert p == p[..|p| - 1] + [p[|p| - 1]];
    }
  }

  /** More closing than opening braces. */
  ghost predicate Surplus(s: string) { multiset(s)['}'] > multiset(s)['{'] }

  lemma SurplusIsCount(s: string)
    ensures Surplus(s) <==> Closes(s) > Opens(s)
  {
    CountIsMultiplicity(s, '{');
    CountIsMultiplicity(s, '}');
  }

  /** Every prefix has at least as many opening as closing braces, and the totals are equal. */
  ghost predicate Balanced(p: string) {
    && (forall k :: 0 <= k <= |p| ==> !Surplus(p[..k]))
    && multiset(p)['{'] == multiset(p)['}']
  }

  /** The first closing brace without an opening one before it. */
  function FirstClose(p: string): (r: Option<nat>)
    ensures r.Some? ==> r.value < |p| && p[r.value] == '}' && Closes(p[..r.value + 1]) > Opens(p[..r.value + 1])
    ensures r.Some? ==> forall k :: 0 <= k <= r.value ==> Closes(p[..k]) <= Opens(p[..k])
    ensures r.None? ==> forall k :: 0 <= k <= |p| ==> Closes(p[..k]) <= Opens(p[..k])
  {
    if p == "" then None
    else
      var q := p[..|p| - 1];
      assert forall k :: 0 <= k <= |q| ==> q[..k] == p[..k];
      assert p[..|p|] == p;
      if FirstClose(q).Some? then FirstClose(q)
      else if Closes(p) > Opens(p) then Some(|p| - 1)
      else None
  }

  function LastOpen(p: string): int {
    if p == "" then -1 else if p[|p| - 1] == '{' then |p| - 1 else LastOpen(p[..|p| - 1])
  }

  function BraceProblems(p: string): seq<Problem> {
    if FirstClose(p).Some? then [UnmatchedClose(p, FirstClose(p).value)]
    else if Opens(p) > Closes(p) then [UnmatchedOpen(p, LastOpen(p))]
    else []
  }

  /** What the brace loop reports: the first closing brace too many, or the last opening one when some stay open. */
  ghost predicate BraceError(p: string, e: Problem) {
    match e
    case UnmatchedClose(q, at) =>
      q == p && 0 <= at < |p| && Surplus(p[..at + 1]) && forall k :: 0 <= k <= at ==> !Surplus(p[..k])
    case UnmatchedOpen(q, at) =>
      && q == p && (forall k :: 0 <= k <= |p| ==> !Surplus(p[..k])) && multiset(p)['{'] > multiset(p)['}']
      && 0 <= at < |p| && p[at] == '{' && forall j :: at < j < |p| ==> p[j] != '{'
    case _ => false
  }

  lemma {:induction false} LastOpenIs(p: string)
    ensures -1 <= LastOpen(p) < |p| && (Opens(p) > 0 ==> 0 <= LastOpen(p) && p[LastOpen(p)] == '{')
    ensures forall j :: LastOpen(p) < j < |p| ==> p[j] != '{'
  {
    if p != "" {
      LastOpenIs(p[..|p| - 1]);
    }
  }

  lemma NoSurplusIff(p: string)
    ensures FirstClose(p).None? <==> forall k :: 0 <= k <= |p| ==> !Surplus(p[..k])
    ensures FirstClose(p).Some? ==> var at := FirstClose(p).value;
      Surplus(p[..at + 1]) && forall k :: 0 <= k <= at ==> !Surplus(p[..k])
  {
    forall k | 0 <= k <= |p| ensures Surplus(p[..k]) <==> Closes(p[..k]) > Opens(p[..k]) {
      SurplusIsCount(p[..k]);
    }
    if FirstClose(p).Some? {
      assert Surplus(p[..FirstClose(p).value + 1]);
    }
  }

  lemma BraceProblemsExactly(p: string, e: Problem)
    ensures e in BraceProblems(p) <==> BraceError(p, e)
  {
    NoSurplusIff(p);
    LastOpenIs(p);
    CountIsMultiplicity(p, '{');
    CountIsMultiplicity(p, '}');
    hide FirstClose, LastOpen, Count, Surplus;
    if FirstClose(p).Some? && e.UnmatchedClose? && BraceError(p, e) {
      var at := FirstClose(p).value;
      assert Surplus(p[..at + 1]) && Surplus(p[..e.at + 1]);
    }
  }

  /** The brace loop accepts exactly the balanced paths. */
  lemma BracesBalanced(p: string)
    ensures BraceProblems(p) == [] <==> Balanced(p)
  {
    NoSurplusIff(p);
    CountIsMultiplicity(p, '{');
    CountIsMultiplicity(p, '}');
    assert p[..|p|] == p;
    hide FirstClose, Count;
  }

  lemma BracesFound(p: string)
    ensures BraceProblems(p) == [] <==> Balanced(p)
    ensures BraceProblems(p) != [] ==> BraceError(p, BraceProblems(p)[0])
  {
    BracesBalanced(p);
    hide Balanced, BraceProblems;
    if BraceProblems(p) != [] {
      BraceProblemsExactly(p, BraceProblems(p)[0]);
    }
  }

  /** What was found in a prefix stays the first. */
  lemma {:induction false} FirstCloseStays(p: string, k: nat)
    requires k <= |p| && FirstClose(p[..k]).Some?
    ensures FirstClose(p) == FirstClose(p[..k])
  {
    if k == |p| {
      assert p[..k] == p;
    } else {
      assert p[..|p| - 1][..k] == p[..k];
      FirstCloseStays(p[..|p| - 1], k);
    }
  }

  lemma NextPrefix(p: string, i: nat)
    requires i < |p|
    ensures p[..i + 1][..i] == p[..i] && p[..i + 1][i] == p[i]
  {
  }

  method CheckBraces(p: string) returns (found: Option<Problem>)
    ensures found == if BraceProblems(p) == [] then None else Some(BraceProblems(p)[0])
    ensures (found.None? <==> Balanced(p)) && (found.Some? ==> BraceError(p, found.value))
  {
    BracesFound(p);
    hide Balanced, BraceError;
    var open, last, i := 0, -1, 0;
    while i < |p|
      invariant 0 <= i <= |p|
      invariant open == Opens(p[..i]) - Closes(p[..i])
      invariant last == LastOpen(p[..i])
      invariant FirstClose(p[..i]).None?
    {
      NextPrefix(p, i);
      if p[i] == '{' {
        open := open + 1;
        last := i;
      } else if p[i] == '}' {
        open := open - 1;
        if open < 0 {
          FirstCloseStays(p, i + 1);
          return Some(UnmatchedClose(p, i));
        }
      }
      i := i + 1;
    }
    assert p[..|p|] == p;
    found := if open > 0 then Some(UnmatchedOpen(p, last)) else None;
  }

  // ---------- Documents ----------

  predicate Contains(p: string, a: char, b: char) { exists i :: 0 <= i < |p| - 1 && p[i] == a && p[i + 1] == b }

  predicate LeadingSlash(p: string) { |p| > 0 && p[0] == '/' }

  function PathProblems(p: string): seq<Problem> {
    if !LeadingSlash(p) then [NoLeadingSlash(p)]
    else
      BraceProblems(p)
      + (if Contains(p, '{', '}') then [EmptyParameter(p)] else [])
      + (if Contains(p, '/', '/') then [DoubleSlash(p)] else [])
  }

  function PathsProblems(order: seq<string>): seq<Problem> {
    if order == [] then [] else PathsProblems(order[..|order| - 1]) + PathProblems(order[|order| - 1])
  }

  function HeadProblems(d: Document): seq<Problem> {
    (if d.openapi == "" then [MissingField(NOpenapi)]
     else if !Supported(d.openapi) then [UnsupportedVersion(d.openapi)] else [])
    + (if d.info.title == "" then [MissingField(NTitle)] else [])
    + (if d.info.version == "" then [MissingField(NVersion)] else [])
  }

  function Problems(d: Document, order: seq<string>): seq<Problem> { HeadProblems(d) + PathsProblems(order) }

  // ---------- Which problems, and in which order ----------

  /** The problems of a path, said on the path itself; a path without leading slash has no other. */
  ghost predicate PathError(p: string, e: Problem) {
    match e
    case NoLeadingSlash(q) => q == p && (|p| == 0 || p[0] != '/')
    case EmptyParameter(q) =>
      q == p && |p| > 0 && p[0] == '/' && exists i :: 0 <= i < |p| - 1 && p[i] == '{' && p[i + 1] == '}'
    case DoubleSlash(q) =>
      q == p && |p| > 0 && p[0] == '/' && exists i :: 0 <= i < |p| - 1 && p[i] == '/' && p[i + 1] == '/'
    case _ => |p| > 0 && p[0] == '/' && BraceError(p, e)
  }

  /** The problems of a document, said on the document itself. */
  ghost predicate IsProblem(d: Document, e: Problem) {
    match e
    case MissingField(f) =>
      || (f == NOpenapi && d.openapi == "") || (f == NTitle && d.info.title == "")
      || (f == NVersion && d.info.version == "")
    case UnsupportedVersion(v) =>
      v == d.openapi && v != "" && v !in ["3.0.0", "3.0.1", "3.0.2", "3.0.3", "3.1.0"]
    case _ => e.path in d.paths && PathError(e.path, e)
  }

  predicate InHead(e: Problem) { e.MissingField? || e.UnsupportedVersion? }

  /** Version before title before version of the API; on a path, slash and braces before "{}" before "//". */
  function Rank(e: Problem): int {
    match e
    case MissingField(f) => if f == NOpenapi then 0 else if f == NTitle then 1 else 2
    case UnsupportedVersion(_) => 0
    case EmptyParameter(_) => 1
    case DoubleSlash(_) => 2
    case _ => 0
  }

  /** Problems of the document as a whole come first, then those of the paths, path by path. */
  ghost predicate Precedes(order: seq<string>, a: Problem, b: Problem) {
    if InHead(a) then InHead(b) ==> Rank(a) < Rank(b)
    else if InHead(b) then false
    else if a.path == b.path then Rank(a) < Rank(b)
    else exists i, j :: 0 <= i < j < |order| && order[i] == a.path && order[j] == b.path
  }

  ghost predicate InOrder(order: seq<string>, errors: seq<Problem>) {
    forall i, j :: 0 <= i < j < |errors| ==> Precedes(order, errors[i], errors[j])
  }

  lemma PathProblemsExactly(p: string, e: Problem)
    ensures e in PathProblems(p) <==> PathError(p, e)
  {
    BraceProblemsExactly(p, e);
    hide BraceProblems, BraceError;
    if e in BraceProblems(p) {
      BraceKind(p, e);
    }
  }

  lemma BraceKind(p: string, e: Problem)
    requires e in BraceProblems(p)
    ensures (e.UnmatchedClose? || e.UnmatchedOpen?) && e.path == p
  {
  }

  lemma PathProblemsInOrder(order: seq<string>, p: string)
    ensures InOrder(order, PathProblems(p))
    ensures forall e :: e in PathProblems(p) ==> !InHead(e) && e.path == p
  {
    var a := BraceProblems(p);
    var b := if Contains(p, '{', '}') then [EmptyParameter(p)] else [];
    var c := if Contains(p, '/', '/') then [DoubleSlash(p)] else [];
    assert |a| <= 1;
    forall e | e in a ensures !InHead(e) && e.path == p && Rank(e) == 0 {
      BraceKind(p, e);
    }
    PartsInOrder(order, p, a, b, c);
    hide BraceProblems, Contains;
  }

  /** At most one problem of each rank, one after the other. */
  lemma PartsInOrder(order: seq<string>, p: string, a: seq<Problem>, b: seq<Problem>, c: seq<Problem>)
    requires |a| <= 1 && |b| <= 1 && |c| <= 1
    requires forall e :: e in a ==> !InHead(e) && e.path == p && Rank(e) == 0
    requires forall e :: e in b ==> !InHead(e) && e.path == p && Rank(e) == 1
    requires forall e :: e in c ==> !InHead(e) && e.path == p && Rank(e) == 2
    ensures InOrder(order, a + b + c) && forall e :: e in a + b + c ==> !InHead(e) && e.path == p
  {
    hide Rank, InHead;
    var s := a + b + c;
    forall i, j | 0 <= i < j < |s| ensures Precedes(order, s[i], s[j]) {
      assert s[i] in a + b && s[j] in b + c;
      assert s[i] in a || (s[i] in b && s[j] in c);
    }
  }

  lemma {:induction false} PathsProblemsExactly(order: seq<string>, e: Problem)
    ensures e in PathsProblems(order) <==> !InHead(e) && e.path in order && PathError(e.path, e)
  {
    if order != [] {
      var front, last := order[..|order| - 1], order[|order| - 1];
      PathsProblemsExactly(front, e);
      PathProblemsExactly(last, e);
      PathProblemsInOrder(order, last);
      assert order == front + [last];
      hide PathProblems, PathError;
    }
  }

  /** More paths behind do not change which problem precedes which. */
  lemma PrecedesLater(front: seq<string>, last: string, a: Problem, b: Problem)
    requires Precedes(front, a, b)
    ensures Precedes(front + [last], a, b)
  {
    if !InHead(a) && a.path != b.path {
      var i, j :| 0 <= i < j < |front| && front[i] == a.path && front[j] == b.path;
      var order := front + [last];
      assert order[i] == a.path && order[j] == b.path;
    }
  }

  lemma {:induction false} PathsProblemsInOrder(order: seq<string>)
    requires forall i, j :: 0 <= i < j < |order| ==> order[i] != order[j]
    ensures InOrder(order, PathsProblems(order))
  {
    if order != [] {
      var front, last := order[..|order| - 1], order[|order| - 1];
      PathsProblemsInOrder(front);
      PathProblemsInOrder(order, last);
      assert order == front + [last];
      var earlier, latest := PathsProblems(front), PathProblems(last);
      PathsProblemsNext(order);
      hide PathProblems, PathsProblems, Precedes;
      forall a, b | 0 <= a < b < |earlier| ensures Precedes(order, earlier[a], earlier[b]) {
        PrecedesLater(front, last, earlier[a], earlier[b]);
      }
      forall x, y | x in earlier && y in latest ensures Precedes(order, x, y) {
        EarlierPath(front, last, x, y);
      }
      AppendInOrder(order, earlier, latest);
    }
  }

  lemma AppendInOrder(order: seq<string>, a: seq<Problem>, b: seq<Problem>)
    requires InOrder(order, a) && InOrder(order, b) && forall x, y :: x in a && y in b ==> Precedes(order, x, y)
    ensures InOrder(order, a + b)
  {
    hide Precedes;
    var s := a + b;
    forall i, j | 0 <= i < j < |s| ensures Precedes(order, s[i], s[j]) {
      assert s[i] == if i < |a| then a[i] else b[i - |a|];
      assert s[j] == if j < |a| then a[j] else b[j - |a|];
    }
  }

  lemma PathsProblemsNext(order: seq<string>)
    requires order != []
    ensures PathsProblems(order) == PathsProblems(order[..|order| - 1]) + PathProblems(order[|order| - 1])
  {
  }

  lemma EarlierPath(front: seq<string>, last: string, a: Problem, b: Problem)
    requires a in PathsProblems(front) && b in PathProblems(last) && last !in front
    ensures Precedes(front + [last], a, b)
  {
    PathsProblemsExactly(front, a);
    PathProblemsInOrder(front, last);
    hide PathProblems, PathError;
    var order := front + [last];
    var i :| 0 <= i < |front| && front[i] == a.path;
    assert order[i] == a.path && order[|front|] == b.path;
  }

  lemma HeadProblemsExactly(d: Document, order: seq<string>, e: Problem)
    ensures e in HeadProblems(d) <==> InHead(e) && IsProblem(d, e)
    ensures InOrder(order, HeadProblems(d)) && forall x :: x in HeadProblems(d) ==> InHead(x)
  {
    assert Supported(d.openapi) <==> d.openapi in ["3.0.0", "3.0.1", "3.0.2", "3.0.3", "3.1.0"];
    hide Supported;
  }

  /** The list holds exactly the problems of the document, in order and none twice. */
  lemma ProblemsExactly(d: Document, order: seq<string>)
    requires Lists(order, d)
    ensures forall e :: e in Problems(d, order) <==> IsProblem(d, e)
    ensures InOrder(order, Problems(d, order))
  {
    forall e ensures e in Problems(d, order) <==> IsProblem(d, e) {
      HeadProblemsExactly(d, order, e);
      PathsProblemsExactly(order, e);
      hide HeadProblems, PathsProblems, PathError;
    }
    ProblemsInOrder(d, order);
  }

  lemma ProblemsInOrder(d: Document, order: seq<string>)
    requires Lists(order, d)
    ensures InOrder(order, Problems(d, order))
  {
    HeadProblemsExactly(d, order, MissingField(NTitle));
    PathsProblemsInOrder(order);
    var head, rest := HeadProblems(d), PathsProblems(order);
    forall e | e in rest ensures !InHead(e) {
      PathsProblemsExactly(order, e);
    }
    hide HeadProblems, PathsProblems, IsProblem;
    AppendInOrder(order, head, rest);
  }

  /** The problem that comes first. */
  ghost predicate FirstProblem(d: Document, order: seq<string>, e: Problem) {
    IsProblem(d, e) && forall x :: IsProblem(d, x) && x != e ==> Precedes(order, e, x)
  }

  ghost predicate NoProblem(d: Document) { forall e :: !IsProblem(d, e) }

  lemma HeadIsFirst(d: Document, order: seq<string>)
    requires Lists(order, d)
    ensures Problems(d, order) != [] ==> FirstProblem(d, order, Problems(d, order)[0])
    ensures Problems(d, order) == [] <==> NoProblem(d)
  {
    hide Problems, IsProblem, Precedes;
    ProblemsExactly(d, order);
    var errors := Problems(d, order);
    if errors != [] {
      assert errors[0] in errors;
      forall x | IsProblem(d, x) && x != errors[0] ensures Precedes(order, errors[0], x) {
        var i :| 0 <= i < |errors| && errors[i] == x;
      }
    }
  }

  /** `order` lists the paths of the document, each once. */
  ghost predicate Lists(order: seq<string>, d: Document) {
    && (forall i, j :: 0 <= i < j < |order| ==> order[i] != order[j])
    && (forall p :: p in order <==> p in d.paths)
  }

  ghost predicate WellFormedPath(p: string) {
    LeadingSlash(p) && Balanced(p) && !Contains(p, '{', '}') && !Contains(p, '/', '/')
  }

  ghost predicate WellFormed(d: Document) {
    && Supported(d.openapi) && d.info.title != "" && d.info.version != ""
    && (forall p :: p in d.paths ==> WellFormedPath(p))
  }

  lemma HeadWellFormed(d: Document)
    ensures HeadProblems(d) == [] <==> Supported(d.openapi) && d.info.title != "" && d.info.version != ""
  {
    assert !Supported("");
    hide Supported;
  }

  lemma PathWellFormed(p: string)
    ensures PathProblems(p) == [] <==> WellFormedPath(p)
  {
    hide BraceProblems, Balanced, Contains;
    BracesBalanced(p);
  }

  lemma {:induction false} PathsWellFormed(order: seq<string>)
    ensures PathsProblems(order) == [] <==> forall p :: p in order ==> WellFormedPath(p)
  {
    hide PathProblems, WellFormedPath;
    if order != [] {
      var front, last := order[..|order| - 1], order[|order| - 1];
      PathsWellFormed(front);
      PathWellFormed(last);
      assert order == front + [last];
      assert PathsProblems(order) == PathsProblems(front) + PathProblems(last);
    }
  }

  /** No problem is listed exactly for the well-formed documents, whatever order the paths come in. */
  lemma ProblemsWellFormed(d: Document, order: seq<string>)
    requires Lists(order, d)
    ensures Problems(d, order) == [] <==> WellFormed(d)
  {
    hide HeadProblems, PathsProblems, WellFormedPath, Supported;
    HeadWellFormed(d);
    PathsWellFormed(order);
  }

  lemma {:induction false} PathsProblemsGrow(order: seq<string>, k: nat)
    requires k <= |order|
    ensures |PathsProblems(order[..k])| <= |PathsProblems(order)|
    ensures PathsProblems(order)[..|PathsProblems(order[..k])|] == PathsProblems(order[..k])
  {
    if k == |order| {
      assert order[..k] == order;
    } else {
      assert order[..|order| - 1][..k] == order[..k];
      PathsProblemsGrow(order[..|order| - 1], k);
    }
  }

  lemma ProblemsNext(d: Document, order: seq<string>, i: nat)
    requires i < |order|
    ensures Problems(d, order[..i + 1]) == Problems(d, order[..i]) + PathProblems(order[i])
  {
    hide HeadProblems, PathProblems;
    assert order[..i + 1][..i] == order[..i];
  }

  /** The tests made on one path by the validator that stops early. */
  method CheckPath(p: string) returns (r: Option<Problem>)
    ensures r == if PathProblems(p) == [] then None else Some(PathProblems(p)[0])
  {
    hide BraceProblems, Balanced, BraceError;
    if !LeadingSlash(p) {
      return Some(NoLeadingSlash(p));
    }
    r := CheckBraces(p);
    if r.None? {
      if Contains(p, '{', '}') {
        r := Some(EmptyParameter(p));
      } else if Contains(p, '/', '/') {
        r := Some(DoubleSlash(p));
      }
    }
  }

  /** The validator that stops early returns the first of all problems, or none when there are none. */
  method Validate(d: Document, order: seq<string>) returns (r: Option<Problem>)
    requires Lists(order, d)
    ensures r == if Problems(d, order) == [] then None else Some(Problems(d, order)[0])
    ensures r.None? <==> WellFormed(d)
    ensures r.None? <==> NoProblem(d)
    ensures r.Some? ==> FirstProblem(d, order, r.value)
  {
    hide Supported, WellFormed, PathProblems, Lists, FirstProblem, NoProblem;
    ProblemsWellFormed(d, order);
    HeadIsFirst(d, order);
    if d.openapi == "" {
      return Some(MissingField(NOpenapi));
    }
    if !Supported(d.openapi) {
      return Some(UnsupportedVersion(d.openapi));
    }
    if d.info.title == "" {
      return Some(MissingField(NTitle));
    }
    if d.info.version == "" {
      return Some(MissingField(NVersion));
    }
    var i := 0;
    while i < |order|
      invariant 0 <= i <= |order|
      invariant PathsProblems(order[..i]) == []
    {
      assert order[..i + 1][..i] == order[..i];
      PathsProblemsGrow(order, i + 1);
      var problem := CheckPath(order[i]);
      if problem.Some? {
        assert PathsProblems(order)[0] == PathsProblems(order[..i + 1])[0];
        return problem;
      }
      i := i + 1;
    }
    assert order[..i] == order;
    return None;
  }

  lemma Associative(a: seq<Problem>, b: seq<Problem>, e: Problem)
    ensures (a + b) + [e] == a + (b + [e])
  {
  }

  /** The tests made on one path by the validator that goes on. */
  method CollectPath(p: string, found: seq<Problem>) returns (errors: seq<Problem>)
    ensures errors == found + PathProblems(p)
  {
    assert |BraceProblems(p)| <= 1;
    hide BraceProblems, Balanced, BraceError, Contains;
    errors := found;
    if !LeadingSlash(p) {
      return errors + [NoLeadingSlash(p)];
    }
    var brace := CheckBraces(p);
    ghost var own := BraceProblems(p);
    if brace.Some? {
      errors := errors + [brace.value];
    }
    assert errors == found + own;
    if Contains(p, '{', '}') {
      Associative(found, own, EmptyParameter(p));
      errors, own := errors + [EmptyParameter(p)], own + [EmptyParameter(p)];
    }
    if Contains(p, '/', '/') {
      Associative(found, own, DoubleSlash(p));
      errors, own := errors + [DoubleSlash(p)], own + [DoubleSlash(p)];
    }
    assert own == PathProblems(p);
  }

  /** The tests outside the paths, by the same validator. */
  method CollectHead(d: Document) returns (errors: seq<Problem>)
    ensures errors == HeadProblems(d) == Problems(d, [])
  {
    hide Supported;
    errors := [];
    if d.openapi == "" {
      errors := errors + [MissingField(NOpenapi)];
    } else if !Supported(d.openapi) {
      errors := errors + [UnsupportedVersion(d.openapi)];
    }
    if d.info.title == "" {
      errors := errors + [MissingField(NTitle)];
    }
    if d.info.version == "" {
      errors := errors + [MissingField(NVersion)];
    }
  }

  /** The validator that goes on lists all problems. */
  method ValidateWithDetails(d: Document, order: seq<string>) returns (errors: seq<Problem>)
    requires Lists(order, d)
    ensures errors == Problems(d, order)
    ensures errors == [] <==> WellFormed(d)
    ensures forall e :: e in errors <==> IsProblem(d, e)
    ensures InOrder(order, errors)
  {
    hide WellFormed, Problems, PathProblems, Lists, IsProblem, InOrder;
    ProblemsWellFormed(d, order);
    ProblemsExactly(d, order);
    errors := CollectHead(d);
    assert order[..0] == [];
    var i := 0;
    while i < |order|
      invariant 0 <= i <= |order|
      invariant errors == Problems(d, order[..i])
    {
      ProblemsNext(d, order, i);
      errors := CollectPath(order[i], errors);
      i := i + 1;
    }
    assert order[..i] == order;
  }
}
