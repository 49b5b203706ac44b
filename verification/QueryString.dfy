/**
 Query strings. The two parsers of the servers walk once over the text with indices; what
 they compute is stated here by splitting: the text into pieces at '&', each piece at its
 first '='.
 */
module QueryString {
  type Query = map<string, string>

  /** The position of the first `c` in `s`, or -1. */
  function First(s: string, c: char): (k: int)
    ensures -1 <= k < |s|
    ensures k >= 0 ==> s[k] == c
    ensures forall i :: 0 <= i < (if k < 0 then |s| else k) ==> s[i] != c
  {
    if s == "" then -1
    else if s[0] == c then 0
    else var k := First(s[1..], c); if k < 0 then -1 else k + 1
  }

  function Split(s: string, c: char): seq<string> {
    var k := First(s, c);
    if k < 0 then [s] else [s[..k]] + Split(s[k + 1..], c)
  }

  /** The key and value of one piece; a piece without '=' is a key with an empty value. */
  function Pair(piece: string): (string, string) {
    var k := First(piece, '=');
    if k < 0 then (piece, "") else (piece[..k], piece[k + 1..])
  }

  /** Adding one piece: pieces with an empty key are dropped, later ones replace earlier ones. */
  function Add(q: Query, piece: string): Query {
    var (key, value) := Pair(piece);
    if key == "" then q else q[key := value]
  }

  function AddAll(q: Query, pieces: seq<string>): Query
    decreases |pieces|
  {
    if pieces == [] then q else AddAll(Add(q, pieces[0]), pieces[1..])
  }

  function Meaning(s: string): Query {
    AddAll(map[], Split(s, '&'))
  }

  lemma FirstAt(s: string, c: char, k: int)
    requires 0 <= k < |s| && s[k] == c && forall i :: 0 <= i < k ==> s[i] != c
    ensures First(s, c) == k
  {
  }

  lemma FirstNone(s: string, c: char)
    requires forall i :: 0 <= i < |s| ==> s[i] != c
    ensures First(s, c) == -1
  {
  }

  /** The piece that ends at position `i` of `s`, given where its key ended so far. */
  ghost predicate InPiece(s: string, keyStart: int, keyEnd: int, i: int) {
    && 0 <= keyStart <= i <= |s|
    && (forall j :: keyStart <= j < i ==> s[j] != '&')
    && (keyEnd == -1 ==> forall j :: keyStart <= j < i ==> s[j] != '=')
    && (keyEnd != -1 ==> keyStart <= keyEnd < i && s[keyEnd] == '=' && forall j :: keyStart <= j < keyEnd ==> s[j] != '=')
  }

  /** What the branch for a finished piece does to the map. */
  lemma FinishedPiece(s: string, keyStart: int, keyEnd: int, i: int, q: Query)
    requires InPiece(s, keyStart, keyEnd, i)
    ensures keyEnd > keyStart ==> Add(q, s[keyStart..i]) == q[s[keyStart..keyEnd] := s[keyEnd + 1..i]]
    ensures keyEnd == -1 && i > keyStart ==> Add(q, s[keyStart..i]) == q[s[keyStart..i] := ""]
    ensures keyEnd == keyStart || (keyEnd == -1 && i == keyStart) ==> Add(q, s[keyStart..i]) == q
  {
    var piece := s[keyStart..i];
    if keyEnd == -1 {
      FirstNone(piece, '=');
    } else {
      FirstAt(piece, '=', keyEnd - keyStart);
      assert piece[..keyEnd - keyStart] == s[keyStart..keyEnd];
      assert piece[keyEnd - keyStart + 1..] == s[keyEnd + 1..i];
    }
  }

  lemma AddAllCons(q: Query, piece: string, rest: seq<string>)
    ensures AddAll(q, [piece] + rest) == AddAll(Add(q, piece), rest)
  {
    assert ([piece] + rest)[1..] == rest;
  }

  /** Reading a text whose first piece ends at `k`. */
  lemma ReadFirst(q: Query, s: string, k: int)
    requires 0 <= k <= |s| && (forall i :: 0 <= i < k ==> s[i] != '&') && (k < |s| ==> s[k] == '&')
    ensures AddAll(q, Split(s, '&')) ==
      if k < |s| then AddAll(Add(q, s[..k]), Split(s[k + 1..], '&')) else Add(q, s)
  {
    if k < |s| {
      FirstAt(s, '&', k);
      AddAllCons(q, s[..k], Split(s[k + 1..], '&'));
    } else {
      FirstNone(s, '&');
      AddAllCons(q, s, []);
      assert [s] + [] == [s];
    }
  }

  /** Where the piece that starts at `a` ends. */
  function PieceEnd(s: string, a: int): (e: int)
    requires 0 <= a <= |s|
    ensures a <= e <= |s| && (e < |s| ==> s[e] == '&') && forall j :: a <= j < e ==> s[j] != '&'
    decreases |s| - a
  {
    if a == |s| || s[a] == '&' then a else PieceEnd(s, a + 1)
  }

  /** The pieces of `s` from position `a` on, added to `q`. */
  function ReadFrom(s: string, a: int, q: Query): Query
    requires 0 <= a <= |s|
    decreases |s| - a
  {
    var e := PieceEnd(s, a);
    if e < |s| then ReadFrom(s, e + 1, Add(q, s[a..e])) else Add(q, s[a..e])
  }

  lemma SliceOfSuffix(s: string, a: int, e: int)
    requires 0 <= a <= e <= |s|
    ensures s[a..][..e - a] == s[a..e]
    ensures e < |s| ==> s[a..][e - a + 1..] == s[e + 1..]
  {
  }

  lemma {:induction false} ReadFromIsSplit(s: string, a: int, q: Query)
    requires 0 <= a <= |s|
    ensures ReadFrom(s, a, q) == AddAll(q, Split(s[a..], '&'))
    decreases |s| - a
  {
    hide AddAll, Split, Add;
    var e := PieceEnd(s, a);
    ReadFirst(q, s[a..], e - a);
    SliceOfSuffix(s, a, e);
    if e < |s| {
      ReadFromIsSplit(s, e + 1, Add(q, s[a..e]));
    } else {
      assert s[a..e] == s[a..];
    }
  }

  /** A piece that runs from `a` to `i`, read to its end. */
  lemma ReadPiece(s: string, a: int, keyEnd: int, i: int, q: Query)
    requires InPiece(s, a, keyEnd, i) && (i < |s| ==> s[i] == '&')
    ensures ReadFrom(s, a, q) == if i < |s| then ReadFrom(s, i + 1, Add(q, s[a..i])) else Add(q, s[a..i])
  {
    assert PieceEnd(s, a) == i;
  }

  lemma InPieceStep(s: string, keyStart: int, keyEnd: int, i: int)
    requires InPiece(s, keyStart, keyEnd, i) && i < |s| && s[i] != '&'
    ensures InPiece(s, keyStart, if s[i] == '=' && keyEnd == -1 then i else keyEnd, i + 1)
  {
  }

  /** What the loop knows before position `i`: the piece it is in, and what is still to come. */
  ghost predicate Stage(s: string, keyStart: int, keyEnd: int, i: int, q: Query, goal: Query) {
    if i <= |s| then InPiece(s, keyStart, keyEnd, i) && ReadFrom(s, keyStart, q) == goal else q == goal
  }

  lemma StageEnd(s: string, keyStart: int, keyEnd: int, q: Query, goal: Query)
    requires Stage(s, keyStart, keyEnd, |s| + 1, q, goal)
    ensures q == goal
  {
  }

  lemma StageSkip(s: string, keyStart: int, keyEnd: int, i: int, q: Query, goal: Query)
    requires Stage(s, keyStart, keyEnd, i, q, goal) && i < |s| && s[i] != '&'
    ensures 0 <= i && Stage(s, keyStart, if s[i] == '=' && keyEnd == -1 then i else keyEnd, i + 1, q, goal)
  {
    InPieceStep(s, keyStart, keyEnd, i);
  }

  lemma StageFinish(s: string, keyStart: int, keyEnd: int, i: int, q: Query, goal: Query)
    requires 0 <= i <= |s| && Stage(s, keyStart, keyEnd, i, q, goal) && (i < |s| ==> s[i] == '&')
    ensures InPiece(s, keyStart, keyEnd, i) && Stage(s, i + 1, -1, i + 1, Add(q, s[keyStart..i]), goal)
  {
    ReadPiece(s, keyStart, keyEnd, i, q);
  }

  /** The branch that completes a pair. */
  method FinishPair(s: string, keyStart: int, keyEnd: int, valueStart: int, i: int, q: Query) returns (r: Query)
    requires InPiece(s, keyStart, keyEnd, i) && (keyEnd != -1 ==> valueStart == keyEnd + 1)
    ensures r == Add(q, s[keyStart..i])
  {
    FinishedPiece(s, keyStart, keyEnd, i, q);
    r := q;
    if keyEnd > keyStart && valueStart > 0 {
      var key := s[keyStart..keyEnd];
      var value := if valueStart < i then s[valueStart..i] else "";
      assert value == s[keyEnd + 1..i];
      r := q[key := value];
    } else if keyEnd == -1 && i > keyStart {
      var key := s[keyStart..i];
      r := q[key := ""];
    }
  }

  /** The single-pass loop shared by both parsers, over `s` from `start` on. */
  /** The loop body at position `i`; behind the end a separator is assumed. */
  method Turn(s: string, i: int, start: int, end: int, value: int, q: Query, ghost goal: Query)
    returns (keyStart: int, keyEnd: int, valueStart: int, r: Query)
    requires 0 <= i <= |s| && Stage(s, start, end, i, q, goal) && (end != -1 ==> value == end + 1)
    ensures Stage(s, keyStart, keyEnd, i + 1, r, goal) && (keyEnd != -1 ==> valueStart == keyEnd + 1)
  {
    keyStart, keyEnd, valueStart, r := start, end, value, q;
    var ch := if i < |s| then s[i] else '&';
    if ch == '=' && keyEnd == -1 {
      StageSkip(s, start, end, i, q, goal);
      keyEnd := i;
      valueStart := i + 1;
    } else if ch == '&' {
      StageFinish(s, start, end, i, q, goal);
      r := FinishPair(s, keyStart, keyEnd, valueStart, i, q);
      keyStart := i + 1;
      keyEnd, valueStart := -1, -1;
    } else {
      StageSkip(s, start, end, i, q, goal);
    }
  }

  lemma StageStart(s: string, start: nat)
    requires start <= |s|
    ensures Stage(s, start, -1, start, map[], Meaning(s[start..]))
  {
    ReadFromIsSplit(s, start, map[]);
  }

  method ParsePairs(s: string, start: nat) returns (q: Query)
    requires start <= |s|
    ensures q == Meaning(s[start..])
  {
    q := map[];
    ghost var goal := Meaning(s[start..]);
    StageStart(s, start);
    hide Stage, Meaning;
    var keyStart: int := start;
    var keyEnd, valueStart := -1, -1;
    for i := start to |s| + 1
      invariant keyEnd != -1 ==> valueStart == keyEnd + 1
      invariant Stage(s, keyStart, keyEnd, i, q, goal)
    {
      keyStart, keyEnd, valueStart, q := Turn(s, i, keyStart, keyEnd, valueStart, q, goal);
    }
    StageEnd(s, keyStart, keyEnd, q, goal);
  }

  lemma MeaningEmpty()
    ensures Meaning("") == map[]
  {
    assert Split("", '&') == [""] && [""][1..] == [];
  }

  method ParseQueryString(query: string) returns (q: Query)
    ensures q == Meaning(query)
  {
    if |query| == 0 {
      MeaningEmpty();
      return map[];
    }
    q := ParsePairs(query, 0);
    assert query[0..] == query;
  }

  /** The position of the last `c` in `s`, or -1. */
  function Last(s: string, c: char): (k: int)
    ensures -1 <= k < |s|
    ensures k >= 0 ==> s[k] == c
    ensures forall i :: k < i < |s| ==> s[i] != c
  {
    if s == "" then -1
    else if s[|s| - 1] == c then |s| - 1
    else Last(s[..|s| - 1], c)
  }

  method ParsePathAndQuery(fullPath: string) returns (path: string, q: Query)
    ensures var k := Last(fullPath, '?');
      if k < 0 then path == fullPath && q == map[]
      else path == fullPath[..k] && q == Meaning(fullPath[k + 1..])
  {
    var len := |fullPath|;
    if len == 0 {
      return fullPath, map[];
    }
    var queryStart := -1;
    var i := len - 1;
    while i >= 0
      invariant -1 <= i < len && queryStart == -1
      invariant forall j :: i < j < len ==> fullPath[j] != '?'
    {
      if fullPath[i] == '?' {
        queryStart := i;
        break;
      }
      i := i - 1;
    }
    if queryStart == -1 {
      return fullPath, map[];
    }
    path := fullPath[..queryStart];
    q := ParsePairs(fullPath, queryStart + 1);
  }

  method ExtractPathOnly(fullPath: string) returns (path: string)
    ensures var k := First(fullPath, '?'); path == if k < 0 then fullPath else fullPath[..k]
  {
    for i := 0 to |fullPath|
      invariant forall j :: 0 <= j < i ==> fullPath[j] != '?'
    {
      if fullPath[i] == '?' {
        FirstAt(fullPath, '?', i);
        return fullPath[..i];
      }
    }
    FirstNone(fullPath, '?');
    return fullPath;
  }

  /** A request with two servers: the parts each of them sees agree exactly when '?' occurs at most once. */
  lemma PathsAgree(fullPath: string)
    ensures First(fullPath, '?') == Last(fullPath, '?') <==>
      forall i, j :: 0 <= i < |fullPath| && 0 <= j < |fullPath| && fullPath[i] == '?' && fullPath[j] == '?' ==> i == j
  {
    var a, b := First(fullPath, '?'), Last(fullPath, '?');
    if a == b {
      forall i, j | 0 <= i < |fullPath| && 0 <= j < |fullPath| && fullPath[i] == '?' && fullPath[j] == '?' ensures i == j {
        assert i == a && j == a;
      }
    }
  }

  /** Two marks: one server takes the longer path, the other the shorter. */
  lemma TwoMarksDisagree()
    ensures var s := "/a?b?c"; s[..Last(s, '?')] == "/a?b" && s[..First(s, '?')] == "/a"
  {
    var s := "/a?b?c";
    assert First(s, '?') == 2 by {
      FirstAt(s, '?', 2);
    }
    assert Last(s, '?') == 4;
  }

  /** Servers that agree on the path agree on the query, whichever parser reads it. */
  method ServersAgree(fullPath: string) returns (path: string, q: Query)
    requires First(fullPath, '?') == Last(fullPath, '?')
    ensures var k := First(fullPath, '?');
      q == Meaning(if k < 0 then "" else fullPath[k + 1..])
    ensures var k := First(fullPath, '?'); path == if k < 0 then fullPath else fullPath[..k]
  {
    MeaningEmpty();
    hide Meaning;
    path, q := ParsePathAndQuery(fullPath);
    var path' := ExtractPathOnly(fullPath);
    assert path == path';
    var q' := ParseQueryString(if |path'| < |fullPath| then fullPath[|path'| + 1..] else "");
    assert q == q';
  }

  // ---------- What a query means ----------

  lemma {:induction false} AddAllAppend(q: Query, pieces: seq<string>, last: string)
    ensures AddAll(q, pieces + [last]) == Add(AddAll(q, pieces), last)
    decreases |pieces|
  {
    if pieces == [] {
      assert [last][1..] == [];
    } else {
      assert (pieces + [last])[1..] == pieces[1..] + [last];
      AddAllAppend(Add(q, pieces[0]), pieces[1..], last);
    }
  }

  ghost predicate IsLastFor(pieces: seq<string>, key: string, i: int)
    requires 0 <= i < |pieces|
  {
    Pair(pieces[i]).0 == key && forall j :: i < j < |pieces| ==> Pair(pieces[j]).0 != key
  }

  /** A key is present iff some piece names it, and its value is that of the last such piece. */
  lemma {:induction false} LastPieceWins(pieces: seq<string>, key: string)
    requires key != ""
    ensures key in AddAll(map[], pieces) <==> exists i :: 0 <= i < |pieces| && Pair(pieces[i]).0 == key
    ensures forall i :: 0 <= i < |pieces| && IsLastFor(pieces, key, i) ==> AddAll(map[], pieces)[key] == Pair(pieces[i]).1
    ensures "" !in AddAll(map[], pieces)
  {
    if pieces != [] {
      var init, last := pieces[..|pieces| - 1], pieces[|pieces| - 1];
      assert pieces == init + [last];
      AddAllAppend(map[], init, last);
      LastPieceWins(init, key);
      AddOne(AddAll(map[], init), last, key);
      hide AddAll, Add, Pair;
      assert forall i :: 0 <= i < |init| ==> pieces[i] == init[i];
      forall i | 0 <= i < |pieces| && IsLastFor(pieces, key, i)
        ensures AddAll(map[], pieces)[key] == Pair(pieces[i]).1
      {
        assert i < |init| ==> IsLastFor(init, key, i);
      }
    }
  }

  /** What one piece changes: only its own key. */
  lemma AddOne(q: Query, piece: string, key: string)
    requires key != ""
    ensures key in Add(q, piece) <==> Pair(piece).0 == key || key in q
    ensures Pair(piece).0 == key ==> Add(q, piece)[key] == Pair(piece).1
    ensures Pair(piece).0 != key && key in q ==> Add(q, piece)[key] == q[key]
    ensures "" in Add(q, piece) <==> "" in q
  {
    hide Pair;
  }

  /** The pieces put together again, with the separator between them. */
  function Glued(pieces: seq<string>, c: char): string
    requires pieces != []
  {
    if |pieces| == 1 then pieces[0] else pieces[0] + [c] + Glued(pieces[1..], c)
  }

  lemma GluedCons(piece: string, rest: seq<string>, c: char)
    requires rest != []
    ensures Glued([piece] + rest, c) == piece + [c] + Glued(rest, c)
  {
    assert ([piece] + rest)[1..] == rest;
  }

  ghost predicate FreeOf(pieces: seq<string>, c: char) {
    forall i :: 0 <= i < |pieces| ==> c !in pieces[i]
  }

  lemma FreeOfCons(piece: string, rest: seq<string>, c: char)
    requires c !in piece && FreeOf(rest, c)
    ensures FreeOf([piece] + rest, c)
  {
  }

  lemma SplitNone(s: string, c: char)
    requires First(s, c) < 0
    ensures Split(s, c) == [s] && Glued([s], c) == s && FreeOf([s], c)
  {
  }

  /** Where the first separator stands, the text is cut in three. */
  lemma SplitNext(s: string, c: char)
    requires First(s, c) >= 0
    ensures var k := First(s, c);
      && s == s[..k] + [c] + s[k + 1..] && c !in s[..k] && Split(s, c) == [s[..k]] + Split(s[k + 1..], c)
  {
    var k := First(s, c);
    assert Split(s, c) == [s[..k]] + Split(s[k + 1..], c);
    hide Split, First;
    ThreeParts(s, k);
  }

  lemma ThreeParts(s: string, k: nat)
    requires k < |s|
    ensures s == s[..k] + [s[k]] + s[k + 1..]
  {
  }

  /** Splitting gives the pieces between the separators, all of them and in order. */
  lemma {:induction false} SplitExactly(s: string, c: char)
    ensures Split(s, c) != [] && Glued(Split(s, c), c) == s && FreeOf(Split(s, c), c)
    decreases |s|
  {
    hide Split, Glued, First, FreeOf;
    var k := First(s, c);
    if k < 0 {
      SplitNone(s, c);
    } else {
      SplitNext(s, c);
      SplitExactly(s[k + 1..], c);
      GluedCons(s[..k], Split(s[k + 1..], c), c);
      FreeOfCons(s[..k], Split(s[k + 1..], c), c);
    }
  }

  /** A piece is cut at its first '='; without one it is a key with an empty value. */
  lemma PairExactly(key: string, value: string)
    requires '=' !in key
    ensures Pair(key) == (key, "")
    ensures Pair(key + "=" + value) == (key, value)
  {
    FirstNone(key, '=');
    var whole := key + "=" + value;
    FirstAt(whole, '=', |key|);
    assert whole[..|key|] == key && whole[|key| + 1..] == value;
  }

  // ---------- Writing and reading back ----------

  /** A pair that the format can carry: a key free of separators, a value free of '&'. */
  predicate Writable(p: (string, string)) {
    p.0 != "" && '&' !in p.0 && '=' !in p.0 && '&' !in p.1
  }

  function Rendered(pairs: seq<(string, string)>): string
    requires pairs != []
  {
    var first := pairs[0].0 + "=" + pairs[0].1;
    if |pairs| == 1 then first else first + "&" + Rendered(pairs[1..])
  }

  function AsQuery(q: Query, pairs: seq<(string, string)>): Query
    decreases |pairs|
  {
    if pairs == [] then q else AsQuery(q[pairs[0].0 := pairs[0].1], pairs[1..])
  }

  /** Reading back what was written returns the pairs, later ones replacing earlier ones. */
  lemma {:induction false} RoundTrip(q: Query, pairs: seq<(string, string)>)
    requires pairs != [] && forall i :: 0 <= i < |pairs| ==> Writable(pairs[i])
    ensures AddAll(q, Split(Rendered(pairs), '&')) == AsQuery(q, pairs)
    decreases |pairs|
  {
    var p := pairs[0];
    var first := p.0 + "=" + p.1;
    FirstAt(first, '=', |p.0|);
    assert first[..|p.0|] == p.0 && first[|p.0| + 1..] == p.1;
    assert Add(q, first) == q[p.0 := p.1];
    var s := Rendered(pairs);
    hide Split, Pair, Add, First;
    ReadFirst(q, s, |first|);
    if |pairs| == 1 {
      assert pairs[1..] == [];
    } else {
      assert s[..|first|] == first && s[|first| + 1..] == Rendered(pairs[1..]);
      RoundTrip(Add(q, first), pairs[1..]);
    }
  }
}
