/** The fuzzy stage of Neo4jClient.search_commands: score every candidate the store
    returned, keep those at or above the threshold, sort them by (score, use_count)
    from highest to lowest, and keep the first `limit`. */
module Ranking {
  import opened Records
  import opened Text

  /** A similarity as rapidfuzz's fuzz.partial_ratio returns it: a float from 0 to 100. */
  type Percent = r: real | 0.0 <= r <= 100.0 witness 0.0

  /** fuzz.partial_ratio(query, text); its algorithm is not part of this model. */
  type Ratio = (string, string) -> Percent

  /** The score of one candidate: the larger of the ratios of the lower-cased query
      against the lower-cased command text and the lower-cased description. */
  function MaxScore(ratio: Ratio, query: string, c: CommandRecord): (s: Percent)
    ensures s >= ratio(Lower(query), Lower(c.command))
    ensures s >= ratio(Lower(query), Lower(c.description))
    ensures s == ratio(Lower(query), Lower(c.command)) || s == ratio(Lower(query), Lower(c.description))
  {
    var cmdScore := ratio(Lower(query), Lower(c.command));
    var descScore := ratio(Lower(query), Lower(c.description));
    if descScore > cmdScore then descScore else cmdScore
  }

  /** `max_score >= fuzzy_threshold`, a float compared with an int. */
  predicate Passes(ratio: Ratio, query: string, threshold: int, c: CommandRecord) {
    MaxScore(ratio, query, c) >= threshold as real
  }

  /** One entry of scored_commands: the tuple (max_score, cmd). */
  datatype Scored = Scored(score: real, cmd: CommandRecord)

  /** The sort key (score, use_count). */
  function Key(x: Scored): (real, int) {
    (x.score, x.cmd.useCount)
  }

  /** Key(x) >= Key(y), tuples compared lexicographically. */
  predicate AtLeast(x: Scored, y: Scored) {
    x.score > y.score || (x.score == y.score && x.cmd.useCount >= y.cmd.useCount)
  }

  /** Ordered from the highest key to the lowest. */
  predicate SortedDesc(s: seq<Scored>) {
    forall i, j :: 0 <= i < j < |s| ==> AtLeast(s[i], s[j])
  }

  /** The entries of s whose key is k, in the order of s. */
  function WithKey(s: seq<Scored>, k: (real, int)): seq<Scored> {
    if s == [] then [] else (if Key(s[0]) == k then [s[0]] else []) + WithKey(s[1..], k)
  }

  /** `[cmd for _, cmd in s]`. */
  function Cmds(s: seq<Scored>): (r: seq<CommandRecord>)
    ensures |r| == |s|
  {
    if s == [] then [] else [s[0].cmd] + Cmds(s[1..])
  }

  lemma {:induction false} CmdsAt(s: seq<Scored>, i: nat)
    requires i < |s|
    ensures Cmds(s)[i] == s[i].cmd
  {
    if i > 0 {
      CmdsAt(s[1..], i - 1);
    }
  }

  lemma {:induction false} CmdsAppend(a: seq<Scored>, b: seq<Scored>)
    ensures Cmds(a + b) == Cmds(a) + Cmds(b)
  {
    if a != [] {
      assert (a + b)[0] == a[0];
      assert (a + b)[1..] == a[1..] + b;
      CmdsAppend(a[1..], b);
      assert Cmds(a + b) == [a[0].cmd] + Cmds(a[1..] + b);
      assert Cmds(a) == [a[0].cmd] + Cmds(a[1..]);
      assert [a[0].cmd] + (Cmds(a[1..]) + Cmds(b)) == ([a[0].cmd] + Cmds(a[1..])) + Cmds(b);
    } else {
      assert a + b == b;
    }
  }

  /** scored_commands after the loop over the candidates: in candidate order, every
      candidate that passes, paired with its score. */
  function Survivors(ratio: Ratio, query: string, threshold: int, cs: seq<CommandRecord>): (r: seq<Scored>)
    ensures |r| <= |cs|
    ensures forall x :: x in r ==> x.cmd in cs && x.score == MaxScore(ratio, query, x.cmd) && x.score >= threshold as real
    ensures forall c :: c in cs && Passes(ratio, query, threshold, c) ==> Scored(MaxScore(ratio, query, c), c) in r
    ensures multiset(Cmds(r)) <= multiset(cs)
  {
    if cs == [] then []
    else
      var init := cs[..|cs| - 1];
      var c := cs[|cs| - 1];
      assert cs == init + [c];
      var rest := Survivors(ratio, query, threshold, init);
      var s := MaxScore(ratio, query, c);
      if s >= threshold as real then
        CmdsAppend(rest, [Scored(s, c)]);
        rest + [Scored(s, c)]
      else rest
  }

  /** Survivors of one more candidate: the candidate is appended with its score when it
      passes. */
  lemma SurvivorsStep(ratio: Ratio, query: string, threshold: int, cs: seq<CommandRecord>, i: nat)
    requires i < |cs|
    ensures Survivors(ratio, query, threshold, cs[..i + 1]) ==
      if Passes(ratio, query, threshold, cs[i])
      then Survivors(ratio, query, threshold, cs[..i]) + [Scored(MaxScore(ratio, query, cs[i]), cs[i])]
      else Survivors(ratio, query, threshold, cs[..i])
  {
    assert cs[..i + 1][..i] == cs[..i];
  }

  /** pos lists, in increasing order, positions of cs that hold the commands of r. */
  predicate PositionsOf(pos: seq<nat>, r: seq<Scored>, cs: seq<CommandRecord>) {
    && |pos| == |r|
    && (forall i :: 0 <= i < |pos| ==> pos[i] < |cs| && cs[pos[i]] == r[i].cmd)
    && (forall i, j :: 0 <= i < j < |pos| ==> pos[i] < pos[j])
  }

  /** Positions in a prefix of cs are positions in cs. */
  lemma PositionsGrow(pos: seq<nat>, r: seq<Scored>, cs: seq<CommandRecord>)
    requires cs != [] && PositionsOf(pos, r, cs[..|cs| - 1])
    ensures PositionsOf(pos, r, cs)
  {
  }

  /** An entry for the last candidate extends the positions by the last position. */
  lemma PositionsAppend(pos: seq<nat>, r: seq<Scored>, cs: seq<CommandRecord>, x: Scored)
    requires cs != [] && x.cmd == cs[|cs| - 1]
    requires PositionsOf(pos, r, cs[..|cs| - 1])
    ensures PositionsOf(pos + [|cs| - 1], r + [x], cs)
  {
    PositionsGrow(pos, r, cs);
  }

  /** The survivors keep candidate order: they sit at strictly increasing positions of the
      candidate list, each with that candidate's command. */
  lemma {:induction false} SurvivorsInOrder(ratio: Ratio, query: string, threshold: int, cs: seq<CommandRecord>)
    returns (pos: seq<nat>)
    ensures |pos| == |Survivors(ratio, query, threshold, cs)|
    ensures forall i :: 0 <= i < |pos| ==>
      pos[i] < |cs| && cs[pos[i]] == Survivors(ratio, query, threshold, cs)[i].cmd
    ensures forall i, j :: 0 <= i < j < |pos| ==> pos[i] < pos[j]
  {
    if cs == [] {
      pos := [];
    } else {
      var init := cs[..|cs| - 1];
      var c := cs[|cs| - 1];
      var rest := Survivors(ratio, query, threshold, init);
      var p := SurvivorsInOrder(ratio, query, threshold, init);
      assert PositionsOf(p, rest, init);
      if Passes(ratio, query, threshold, c) {
        PositionsAppend(p, rest, cs, Scored(MaxScore(ratio, query, c), c));
        pos := p + [|cs| - 1];
      } else {
        PositionsGrow(p, rest, cs);
        pos := p;
      }
    }
  }

  /** Places x in front of the first entry whose key is not above x's. */
  function Insert(x: Scored, s: seq<Scored>): seq<Scored> {
    if s == [] || AtLeast(x, s[0]) then [x] + s
    else [s[0]] + Insert(x, s[1..])
  }

  /** list.sort(key=lambda x: (x[0], x[1].use_count), reverse=True): a stable sort
      from the highest key to the lowest, written as an insertion sort. */
  function SortDesc(s: seq<Scored>): seq<Scored> {
    if s == [] then [] else Insert(s[0], SortDesc(s[1..]))
  }

  /** Insert adds x and nothing else. */
  lemma {:induction false} InsertPermutes(x: Scored, s: seq<Scored>)
    ensures multiset(Insert(x, s)) == multiset(s) + multiset{x}
  {
    if s == [] || AtLeast(x, s[0]) {
    } else {
      InsertPermutes(x, s[1..]);
      assert s == [s[0]] + s[1..];
    }
  }

  /** The commands of the inserted list are those of the list plus the new one. */
  lemma {:induction false} InsertCmds(x: Scored, s: seq<Scored>)
    ensures multiset(Cmds(Insert(x, s))) == multiset(Cmds(s)) + multiset{x.cmd}
  {
    if s == [] || AtLeast(x, s[0]) {
      assert Cmds([x] + s) == [x.cmd] + Cmds(s);
    } else {
      InsertCmds(x, s[1..]);
      assert Cmds(Insert(x, s)) == [s[0].cmd] + Cmds(Insert(x, s[1..]));
      assert Cmds(s) == [s[0].cmd] + Cmds(s[1..]);
    }
  }

  /** Inserting into a list sorted from highest to lowest key keeps it sorted. */
  lemma {:induction false} InsertSorted(x: Scored, s: seq<Scored>)
    requires SortedDesc(s)
    ensures SortedDesc(Insert(x, s))
  {
    if s == [] || AtLeast(x, s[0]) {
    } else {
      InsertSorted(x, s[1..]);
      InsertPermutes(x, s[1..]);
      var t := Insert(x, s[1..]);
      forall y | y in t ensures AtLeast(s[0], y) {
        assert y in multiset(t);
        assert y == x || y in s[1..];
      }
    }
  }

  /** x overtakes only entries with a strictly lower key, so among the entries of any
      one key, x stays in front of those that were already there. */
  lemma {:induction false} InsertWithKey(x: Scored, s: seq<Scored>, k: (real, int))
    ensures WithKey(Insert(x, s), k) == (if Key(x) == k then [x] else []) + WithKey(s, k)
  {
    if s == [] || AtLeast(x, s[0]) {
      assert ([x] + s)[1..] == s;
    } else {
      InsertWithKey(x, s[1..], k);
      assert ([s[0]] + Insert(x, s[1..]))[1..] == Insert(x, s[1..]);
    }
  }

  /** The sort returns its input ordered from the highest key to the lowest. */
  lemma {:induction false} SortDescSorted(s: seq<Scored>)
    ensures SortedDesc(SortDesc(s))
  {
    if s != [] {
      SortDescSorted(s[1..]);
      InsertSorted(s[0], SortDesc(s[1..]));
    }
  }

  /** The sort neither adds nor drops an entry. */
  lemma {:induction false} SortDescPermutes(s: seq<Scored>)
    ensures multiset(SortDesc(s)) == multiset(s)
  {
    if s != [] {
      SortDescPermutes(s[1..]);
      InsertPermutes(s[0], SortDesc(s[1..]));
      assert s == [s[0]] + s[1..];
    }
  }

  /** The sort neither adds nor drops a command. */
  lemma {:induction false} SortDescCmds(s: seq<Scored>)
    ensures multiset(Cmds(SortDesc(s))) == multiset(Cmds(s))
  {
    if s != [] {
      SortDescCmds(s[1..]);
      InsertCmds(s[0], SortDesc(s[1..]));
      assert Cmds(s) == [s[0].cmd] + Cmds(s[1..]);
    }
  }

  /** The sort is stable: for every key, the entries with that key come out in the
      order they went in. */
  lemma {:induction false} SortDescStable(s: seq<Scored>, k: (real, int))
    ensures WithKey(SortDesc(s), k) == WithKey(s, k)
  {
    if s != [] {
      SortDescStable(s[1..], k);
      InsertWithKey(s[0], SortDesc(s[1..]), k);
    }
  }

  /** Python's slice s[:n], negative n counting from the end. */
  function SliceTo<T>(s: seq<T>, n: int): (r: seq<T>)
    ensures r <= s
  {
    if n >= 0 then (if n <= |s| then s[..n] else s)
    else if |s| + n >= 0 then s[..|s| + n] else []
  }

  /** scored_commands[:limit] after the sort. */
  function TopScored(ratio: Ratio, query: string, threshold: int, limit: int, cs: seq<CommandRecord>): seq<Scored> {
    SliceTo(SortDesc(Survivors(ratio, query, threshold, cs)), limit)
  }

  /** The commands the fuzzy stage returns. */
  function Ranked(ratio: Ratio, query: string, threshold: int, limit: int, cs: seq<CommandRecord>): seq<CommandRecord> {
    Cmds(TopScored(ratio, query, threshold, limit, cs))
  }

  /** d's key (score, use_count) is at least c's. */
  predicate RanksAtLeast(ratio: Ratio, query: string, d: CommandRecord, c: CommandRecord) {
    MaxScore(ratio, query, d) > MaxScore(ratio, query, c)
    || (MaxScore(ratio, query, d) == MaxScore(ratio, query, c) && d.useCount >= c.useCount)
  }

  lemma InCmds(s: seq<Scored>, c: CommandRecord)
    ensures c in Cmds(s) <==> exists i :: 0 <= i < |s| && s[i].cmd == c
  {
    if c in Cmds(s) {
      var i :| 0 <= i < |s| && Cmds(s)[i] == c;
      CmdsAt(s, i);
    }
    if exists i :: 0 <= i < |s| && s[i].cmd == c {
      var i :| 0 <= i < |s| && s[i].cmd == c;
      CmdsAt(s, i);
    }
  }

  lemma SliceToLength<T>(s: seq<T>, n: int)
    ensures n >= 0 ==> |SliceTo(s, n)| == if n <= |s| then n else |s|
    ensures n < 0 ==> |SliceTo(s, n)| == if |s| + n >= 0 then |s| + n else 0
  {
  }

  /** Every returned command is a candidate that reached the threshold; when the
      limit does not cut, every candidate that reached it is returned. */
  lemma RankedMembers(ratio: Ratio, query: string, threshold: int, limit: int, cs: seq<CommandRecord>)
    ensures forall c :: c in Ranked(ratio, query, threshold, limit, cs) ==>
      c in cs && Passes(ratio, query, threshold, c)
  {
    forall c | c in Ranked(ratio, query, threshold, limit, cs)
      ensures c in cs && Passes(ratio, query, threshold, c)
    {
      var sv := Survivors(ratio, query, threshold, cs);
      var i := RankedPosition(ratio, query, threshold, limit, cs, c);
      SortDescPermutes(sv);
      assert SortDesc(sv)[i] in multiset(sv);
    }
  }

  /** When the limit does not cut, every candidate that passes the threshold is in the
      result. */
  lemma RankedComplete(ratio: Ratio, query: string, threshold: int, limit: int, cs: seq<CommandRecord>)
    ensures limit >= |Survivors(ratio, query, threshold, cs)| ==>
      forall c :: c in cs && Passes(ratio, query, threshold, c) ==> c in Ranked(ratio, query, threshold, limit, cs)
  {
    var sv := Survivors(ratio, query, threshold, cs);
    if limit < |sv| {
      return;
    }
    var sorted := SortDesc(sv);
    var top := TopScored(ratio, query, threshold, limit, cs);
    SortDescPermutes(sv);
    assert |sorted| == |multiset(sorted)| == |sv|;
    assert top == sorted;
    forall c | c in cs && Passes(ratio, query, threshold, c)
      ensures c in Ranked(ratio, query, threshold, limit, cs)
    {
      var x := Scored(MaxScore(ratio, query, c), c);
      assert x in multiset(sorted);
      var i :| 0 <= i < |sorted| && sorted[i] == x;
      InCmds(top, c);
    }
  }

  /** The result holds min(limit, number of survivors) commands for a limit of zero
      or more (a negative limit drops that many from the end) and is a prefix of the
      sorted survivors. */
  lemma RankedLength(ratio: Ratio, query: string, threshold: int, limit: int, cs: seq<CommandRecord>)
    ensures var n := |Survivors(ratio, query, threshold, cs)|;
      && (limit >= 0 ==> |Ranked(ratio, query, threshold, limit, cs)| == if limit <= n then limit else n)
      && (limit < 0 ==> |Ranked(ratio, query, threshold, limit, cs)| == if n + limit >= 0 then n + limit else 0)
    ensures Ranked(ratio, query, threshold, limit, cs) <= Cmds(SortDesc(Survivors(ratio, query, threshold, cs)))
  {
    var sv := Survivors(ratio, query, threshold, cs);
    var sorted := SortDesc(sv);
    var top := TopScored(ratio, query, threshold, limit, cs);
    SortDescPermutes(sv);
    assert |sorted| == |multiset(sorted)| == |sv|;
    SliceToLength(sorted, limit);
    CmdsAppend(top, sorted[|top|..]);
    assert sorted == top + sorted[|top|..];
  }

  /** The result is ordered from the highest (score, use_count) to the lowest. */
  lemma RankedOrdered(ratio: Ratio, query: string, threshold: int, limit: int, cs: seq<CommandRecord>)
    ensures var r := Ranked(ratio, query, threshold, limit, cs);
      forall i, j :: 0 <= i < j < |r| ==> RanksAtLeast(ratio, query, r[i], r[j])
  {
    var sv := Survivors(ratio, query, threshold, cs);
    var sorted := SortDesc(sv);
    var top := TopScored(ratio, query, threshold, limit, cs);
    var r := Ranked(ratio, query, threshold, limit, cs);
    SortDescSorted(sv);
    SortDescPermutes(sv);
    forall i, j | 0 <= i < j < |r| ensures RanksAtLeast(ratio, query, r[i], r[j]) {
      CmdsAt(top, i);
      CmdsAt(top, j);
      assert top[i] == sorted[i] && top[j] == sorted[j];
      assert sorted[i] in multiset(sv) && sorted[j] in multiset(sv);
    }
  }

  /** A candidate that reached the threshold but was cut by the limit ranks no
      higher than any returned command. */
  lemma RankedOutranksLeftOut(ratio: Ratio, query: string, threshold: int, limit: int,
                              cs: seq<CommandRecord>, c: CommandRecord)
    requires c in cs && Passes(ratio, query, threshold, c)
    requires c !in Ranked(ratio, query, threshold, limit, cs)
    ensures forall d :: d in Ranked(ratio, query, threshold, limit, cs) ==> RanksAtLeast(ratio, query, d, c)
  {
    var sorted := SortDesc(Survivors(ratio, query, threshold, cs));
    var top := TopScored(ratio, query, threshold, limit, cs);
    SortDescSorted(Survivors(ratio, query, threshold, cs));
    var j := LeftOutPosition(ratio, query, threshold, limit, cs, c);
    forall d | d in Ranked(ratio, query, threshold, limit, cs) ensures RanksAtLeast(ratio, query, d, c) {
      var i := RankedPosition(ratio, query, threshold, limit, cs, d);
      assert AtLeast(sorted[i], sorted[j]);
    }
  }

  /** Where a returned command sits among the sorted survivors: within the kept prefix,
      with its own score. */
  lemma RankedPosition(ratio: Ratio, query: string, threshold: int, limit: int,
                       cs: seq<CommandRecord>, d: CommandRecord) returns (i: nat)
    requires d in Ranked(ratio, query, threshold, limit, cs)
    ensures i < |TopScored(ratio, query, threshold, limit, cs)|
    ensures i < |SortDesc(Survivors(ratio, query, threshold, cs))|
    ensures SortDesc(Survivors(ratio, query, threshold, cs))[i] == Scored(MaxScore(ratio, query, d), d)
  {
    var sv := Survivors(ratio, query, threshold, cs);
    var sorted := SortDesc(sv);
    var top := TopScored(ratio, query, threshold, limit, cs);
    SortDescPermutes(sv);
    InCmds(top, d);
    i :| 0 <= i < |top| && top[i].cmd == d;
    assert top[i] == sorted[i];
    assert sorted[i] in multiset(sv);
  }

  /** A candidate that passed but is not returned sits among the sorted survivors after
      the kept prefix. */
  lemma LeftOutPosition(ratio: Ratio, query: string, threshold: int, limit: int,
                        cs: seq<CommandRecord>, c: CommandRecord) returns (j: nat)
    requires c in cs && Passes(ratio, query, threshold, c)
    requires c !in Ranked(ratio, query, threshold, limit, cs)
    ensures |TopScored(ratio, query, threshold, limit, cs)| <= j < |SortDesc(Survivors(ratio, query, threshold, cs))|
    ensures SortDesc(Survivors(ratio, query, threshold, cs))[j] == Scored(MaxScore(ratio, query, c), c)
  {
    var sv := Survivors(ratio, query, threshold, cs);
    var sorted := SortDesc(sv);
    var top := TopScored(ratio, query, threshold, limit, cs);
    SortDescPermutes(sv);
    var x := Scored(MaxScore(ratio, query, c), c);
    assert x in multiset(sorted);
    j :| 0 <= j < |sorted| && sorted[j] == x;
    if j < |top| {
      assert top[j] == x;
      InCmds(top, c);
    }
  }

  lemma {:induction false} WithKeyPrefix(a: seq<Scored>, b: seq<Scored>, k: (real, int))
    requires a <= b
    ensures WithKey(a, k) <= WithKey(b, k)
  {
    if a != [] {
      assert a[1..] <= b[1..];
      WithKeyPrefix(a[1..], b[1..], k);
    }
  }

  /** Ties keep their input order: for every key, the returned entries with that key
      are the first of the survivors with that key, in candidate order; all of them
      when the limit does not cut. */
  lemma RankedStable(ratio: Ratio, query: string, threshold: int, limit: int,
                     cs: seq<CommandRecord>, k: (real, int))
    ensures WithKey(TopScored(ratio, query, threshold, limit, cs), k)
         <= WithKey(Survivors(ratio, query, threshold, cs), k)
    ensures limit >= |Survivors(ratio, query, threshold, cs)| ==>
      WithKey(TopScored(ratio, query, threshold, limit, cs), k) == WithKey(Survivors(ratio, query, threshold, cs), k)
  {
    var sv := Survivors(ratio, query, threshold, cs);
    var sorted := SortDesc(sv);
    SortDescStable(sv, k);
    SortDescPermutes(sv);
    WithKeyPrefix(TopScored(ratio, query, threshold, limit, cs), sorted, k);
    if limit >= |sv| {
      assert |sorted| == |multiset(sorted)| == |sv|;
      assert TopScored(ratio, query, threshold, limit, cs) == sorted;
    }
  }

  lemma MultiplicityOfRepeat<T>(s: seq<T>, i: nat, j: nat)
    requires i < j < |s| && s[i] == s[j]
    ensures multiset(s)[s[i]] >= 2
  {
    assert s == s[..j] + s[j..];
    assert s[i] in s[..j];
    assert s[j] in s[j..];
  }

  lemma {:induction false} MultiplicityOfDistinct<T>(s: seq<T>, x: T)
    requires forall i, j :: 0 <= i < j < |s| ==> s[i] != s[j]
    ensures multiset(s)[x] <= 1
  {
    if s != [] {
      assert s == [s[0]] + s[1..];
      MultiplicityOfDistinct(s[1..], x);
      if x == s[0] {
        assert x !in s[1..];
      }
    }
  }

  /** Nothing is fabricated: every returned command is a candidate, returned at most
      as often as it was supplied. */
  lemma RankedFromCandidates(ratio: Ratio, query: string, threshold: int, limit: int, cs: seq<CommandRecord>)
    ensures multiset(Ranked(ratio, query, threshold, limit, cs)) <= multiset(cs)
  {
    var sv := Survivors(ratio, query, threshold, cs);
    var sorted := SortDesc(sv);
    var top := TopScored(ratio, query, threshold, limit, cs);
    SortDescCmds(sv);
    CmdsPrefix(top, sorted);
  }

  /** The commands of a prefix are among the commands of the whole. */
  lemma CmdsPrefix(a: seq<Scored>, b: seq<Scored>)
    requires a <= b
    ensures multiset(Cmds(a)) <= multiset(Cmds(b))
  {
    assert b == a + b[|a|..];
    CmdsAppend(a, b[|a|..]);
  }

  /** Distinct candidates give distinct results. */
  lemma RankedDistinct(ratio: Ratio, query: string, threshold: int, limit: int, cs: seq<CommandRecord>)
    requires forall i, j :: 0 <= i < j < |cs| ==> cs[i] != cs[j]
    ensures var r := Ranked(ratio, query, threshold, limit, cs);
      forall i, j :: 0 <= i < j < |r| ==> r[i] != r[j]
  {
    var r := Ranked(ratio, query, threshold, limit, cs);
    RankedFromCandidates(ratio, query, threshold, limit, cs);
    forall i, j | 0 <= i < j < |r| ensures r[i] != r[j] {
      if r[i] == r[j] {
        MultiplicityOfRepeat(r, i, j);
        MultiplicityOfDistinct(cs, r[i]);
        assert false;
      }
    }
  }

  lemma {:induction false} SurvivorsOfLower(ratio: Ratio, query: string, threshold: int, cs: seq<CommandRecord>)
    ensures Survivors(ratio, query, threshold, cs) == Survivors(ratio, Lower(query), threshold, cs)
  {
    LowerIdempotent(query);
    if cs != [] {
      SurvivorsOfLower(ratio, query, threshold, cs[..|cs| - 1]);
    }
  }

  /** Matching ignores the case of the query: "DOCKER" and "docker" rank alike. */
  lemma RankedIgnoresQueryCase(ratio: Ratio, q1: string, q2: string, threshold: int, limit: int,
                               cs: seq<CommandRecord>)
    requires Lower(q1) == Lower(q2)
    ensures Ranked(ratio, q1, threshold, limit, cs) == Ranked(ratio, q2, threshold, limit, cs)
  {
    SurvivorsOfLower(ratio, q1, threshold, cs);
    SurvivorsOfLower(ratio, q2, threshold, cs);
  }

  /** The fuzzy stage (lines 233-252): when fuzzy matching is on, a query is given and
      there are candidates, score, filter, sort and truncate; otherwise return the
      candidates untouched. */
  method RankCandidates(ratio: Ratio, candidates: seq<CommandRecord>, query: Option<string>,
                        limit: int, fuzzy: bool, threshold: int)
    returns (commands: seq<CommandRecord>)
    ensures !(fuzzy && Truthy(query) && candidates != []) ==> commands == candidates
    ensures fuzzy && Truthy(query) && candidates != [] ==>
      commands == Ranked(ratio, query.value, threshold, limit, candidates)
  {
    commands := candidates;
    if fuzzy && Truthy(query) && candidates != [] {
      var scored := ScoreCandidates(ratio, query.value, threshold, candidates);
      scored := SortDesc(scored);
      commands := Cmds(SliceTo(scored, limit));
    }
  }

  /** The scoring loop: every candidate whose best score reaches the threshold is kept
      with that score, in candidate order. */
  method ScoreCandidates(ratio: Ratio, q: string, threshold: int, candidates: seq<CommandRecord>)
    returns (scored: seq<Scored>)
    ensures scored == Survivors(ratio, q, threshold, candidates)
  {
    scored := [];
    for i := 0 to |candidates|
      invariant scored == Survivors(ratio, q, threshold, candidates[..i])
    {
      var cmd := candidates[i];
      var cmdScore := ratio(Lower(q), Lower(cmd.command));
      var descScore := ratio(Lower(q), Lower(cmd.description));
      var maxScore := if descScore > cmdScore then descScore else cmdScore;
      SurvivorsStep(ratio, q, threshold, candidates, i);
      if maxScore >= threshold as real {
        scored := scored + [Scored(maxScore, cmd)];
      }
    }
    assert candidates[..|candidates|] == candidates;
  }
}
