/**
 Topic patterns of solaz/internal/solace/topic_match.go: matching, the index sorted
 by specificity, and the lookup that rejects ties.
 */
module TopicMatch {
  import opened Options

  // ---- Levels ----

  /** strings.Split(s, "/"). */
  function Split(s: string): (levels: seq<string>)
    ensures |levels| >= 1
  {
    var i := FirstSlash(s);
    if i == |s| then [s] else [s[..i]] + Split(s[i + 1..])
  }

  function FirstSlash(s: string): (i: nat)
    ensures i <= |s| && (forall k :: 0 <= k < i ==> s[k] != '/') && (i < |s| ==> s[i] == '/')
  {
    if s == [] || s[0] == '/' then 0 else 1 + FirstSlash(s[1..])
  }

  function Join(levels: seq<string>): string
    requires levels != []
  {
    if |levels| == 1 then levels[0] else levels[0] + "/" + Join(levels[1..])
  }

  /** What the result of Split looks like. */
  ghost predicate Levels(ls: seq<string>)
  {
    ls != [] && forall i :: 0 <= i < |ls| ==> '/' !in ls[i]
  }

  lemma {:induction false} SplitIsLevels(s: string)
    ensures Levels(Split(s))
    decreases |s|
  {
    var i := FirstSlash(s);
    assert '/' !in s[..i];
    if i < |s| {
      SplitIsLevels(s[i + 1..]);
    }
  }

  lemma FirstSlashOf(a: string, b: string)
    requires '/' !in a
    ensures FirstSlash(a + "/" + b) == |a| && FirstSlash(a) == |a|
  {
    var s := a + "/" + b;
    assert s[|a|] == '/';
    assert forall k :: 0 <= k < |a| ==> s[k] == a[k];
  }

  /** Every list of slash-free levels is a topic. */
  lemma {:induction false} SplitJoin(ls: seq<string>)
    requires Levels(ls)
    ensures Split(Join(ls)) == ls
    decreases |ls|
  {
    if |ls| == 1 {
      FirstSlashOf(ls[0], "");
      assert ls == [ls[0]];
    } else {
      var rest := Join(ls[1..]);
      FirstSlashOf(ls[0], rest);
      var s := ls[0] + "/" + rest;
      assert s[..|ls[0]|] == ls[0] && s[|ls[0]| + 1..] == rest;
      SplitJoin(ls[1..]);
      assert ls == [ls[0]] + ls[1..];
    }
  }

  // ---- Matching ----

  /** strings.HasSuffix(p, "*"). */
  predicate Starred(p: string)
  {
    |p| > 0 && p[|p| - 1] == '*'
  }

  function Stem(p: string): string
    requires Starred(p)
  {
    p[..|p| - 1]
  }

  /** One topic level against one pattern level other than a final ">". */
  predicate LevelMatches(t: string, p: string)
  {
    p != ">" && if Starred(p) then Stem(p) <= t else t == p
  }

  /** A final ">" stands for one or more levels. */
  predicate OpenEnded(pl: seq<string>)
  {
    pl != [] && pl[|pl| - 1] == ">"
  }

  /** Number of pattern levels that are matched one to one. */
  function Fixed(pl: seq<string>): nat
  {
    if OpenEnded(pl) then |pl| - 1 else |pl|
  }

  predicate Matches(tl: seq<string>, pl: seq<string>)
  {
    && (if OpenEnded(pl) then |tl| >= |pl| else |tl| == |pl|)
    && forall i {:trigger LevelMatches(tl[i], pl[i])} :: 0 <= i < Fixed(pl) ==> LevelMatches(tl[i], pl[i])
  }

  /** Matching level by level: a pattern without levels matches no levels; a further level is a prefix if it ends
      in "*" and else a literal; a final ">" stands for one or more levels, and a ">" before the end for none. */
  lemma MatchesByLevels(tl: seq<string>, t: string, pl: seq<string>, p: string)
    ensures Matches([], pl) <==> pl == []
    ensures Matches(tl, []) <==> tl == []
    ensures p != ">" && !OpenEnded(pl) ==>
              (Matches(tl + [t], pl + [p]) <==>
                 Matches(tl, pl) && if p != "" && p[|p| - 1] == '*' then p[..|p| - 1] <= t else p == t)
    ensures !OpenEnded(pl) ==> (Matches(tl, pl + [">"]) <==> |tl| > |pl| && Matches(tl[..|pl|], pl))
    ensures OpenEnded(pl) ==> !Matches(tl, pl + [p])
  {
    if OpenEnded(pl) {
      var n := |pl| - 1;
      assert (pl + [p])[n] == ">";
      if |tl| > n {
        assert !LevelMatches(tl[n], (pl + [p])[n]);
      }
    } else {
      if p != ">" {
        LastLevel(tl, t, pl, p);
      }
      if |tl| > |pl| {
        OpenLevel(tl, pl);
      }
    }
  }

  lemma LastLevel(tl: seq<string>, t: string, pl: seq<string>, p: string)
    requires !OpenEnded(pl) && p != ">"
    ensures Matches(tl + [t], pl + [p]) <==> Matches(tl, pl) && LevelMatches(t, p)
  {
    var tl', pl' := tl + [t], pl + [p];
    assert Fixed(pl') == |pl'|;
    if |tl| == |pl| {
      assert forall i :: 0 <= i < |pl| ==> tl'[i] == tl[i] && pl'[i] == pl[i];
      assert tl'[|pl|] == t && pl'[|pl|] == p;
      if Matches(tl, pl) && LevelMatches(t, p) {
        forall i | 0 <= i < |pl'|
          ensures LevelMatches(tl'[i], pl'[i])
        {
          assert i < |pl| ==> LevelMatches(tl[i], pl[i]);
        }
      }
      if Matches(tl', pl') {
        assert LevelMatches(tl'[|pl|], pl'[|pl|]);
        forall i | 0 <= i < |pl|
          ensures LevelMatches(tl[i], pl[i])
        {
          assert LevelMatches(tl'[i], pl'[i]);
        }
      }
    }
  }

  lemma OpenLevel(tl: seq<string>, pl: seq<string>)
    requires !OpenEnded(pl) && |tl| > |pl|
    ensures Matches(tl, pl + [">"]) <==> Matches(tl[..|pl|], pl)
  {
    var pl' := pl + [">"];
    assert Fixed(pl') == |pl|;
    forall i | 0 <= i < |pl|
      ensures LevelMatches(tl[i], pl'[i]) <==> LevelMatches(tl[..|pl|][i], pl[i])
    {
    }
  }

  /** matchTopicLevels. */
  method MatchTopicLevels(tl: seq<string>, pl: seq<string>) returns (ok: bool)
    ensures ok == Matches(tl, pl)
  {
    for i := 0 to |pl|
      invariant i <= |tl|
      invariant forall k :: 0 <= k < i ==> LevelMatches(tl[k], pl[k])
    {
      var p := pl[i];
      if p == ">" {
        if i != |pl| - 1 {
          assert !LevelMatches(if i < |tl| then tl[i] else "", pl[i]);
          return false;
        }
        return |tl| > i;
      }
      if i >= |tl| {
        return false;
      }
      if Starred(p) {
        if !(p[..|p| - 1] <= tl[i]) {
          assert !LevelMatches(tl[i], pl[i]);
          return false;
        }
      } else if p != tl[i] {
        assert !LevelMatches(tl[i], pl[i]);
        return false;
      }
    }
    return |tl| == |pl|;
  }

  // ---- Rank ----

  function LevelRank(p: string): nat
  {
    if p == "*" || p == ">" then 0 else if Starred(p) then 1 else 2
  }

  function Specificity(pl: seq<string>): nat
  {
    if pl == [] then 0 else Specificity(pl[..|pl| - 1]) + LevelRank(pl[|pl| - 1])
  }

  /** The level matches one name only. */
  predicate LiteralLevel(p: string)
  {
    p != ">" && (p == "" || p[|p| - 1] != '*')
  }

  /** The level has something before a final "*". */
  predicate PrefixLevel(p: string)
  {
    |p| >= 2 && p[|p| - 1] == '*'
  }

  ghost function Literals(pl: seq<string>): set<int>
  {
    set i | 0 <= i < |pl| && LiteralLevel(pl[i])
  }

  ghost function Prefixes(pl: seq<string>): set<int>
  {
    set i | 0 <= i < |pl| && PrefixLevel(pl[i])
  }

  lemma OneMoreLiteral(pl: seq<string>, p: string)
    ensures |Literals(pl + [p])| == |Literals(pl)| + if LiteralLevel(p) then 1 else 0
  {
    assert Literals(pl + [p]) == Literals(pl) + if LiteralLevel(p) then {|pl|} else {};
  }

  lemma OneMorePrefix(pl: seq<string>, p: string)
    ensures |Prefixes(pl + [p])| == |Prefixes(pl)| + if PrefixLevel(p) then 1 else 0
  {
    assert Prefixes(pl + [p]) == Prefixes(pl) + if PrefixLevel(p) then {|pl|} else {};
  }

  /** The specificity counts each literal level twice and each prefix once. */
  lemma {:induction false} SpecificityCounts(pl: seq<string>)
    ensures Specificity(pl) == 2 * |Literals(pl)| + |Prefixes(pl)|
  {
    if pl != [] {
      var n := |pl| - 1;
      SpecificityCounts(pl[..n]);
      OneMoreLiteral(pl[..n], pl[n]);
      OneMorePrefix(pl[..n], pl[n]);
      assert pl == pl[..n] + [pl[n]];
    }
  }

  datatype Entry = Entry(pattern: string, msgType: string, segments: seq<string>, specificity: nat)

  /** a is strictly more specific than b. */
  predicate Above(a: Entry, b: Entry)
  {
    a.specificity > b.specificity || (a.specificity == b.specificity && |a.segments| > |b.segments|)
  }

  predicate SameRank(a: Entry, b: Entry)
  {
    a.specificity == b.specificity && |a.segments| == |b.segments|
  }

  function EntryOf(pattern: string, msgType: string): Entry
  {
    Entry(pattern, msgType, Split(pattern), Specificity(Split(pattern)))
  }

  // ---- The index ----

  /** Most specific first. */
  ghost predicate Sorted(es: seq<Entry>)
  {
    forall i, j :: 0 <= i < j < |es| ==> !Above(es[j], es[i])
  }

  /** e is what the mapping of its pattern gives. */
  ghost predicate Faithful(m: map<string, string>, e: Entry)
  {
    e.pattern in m && e == EntryOf(e.pattern, m[e.pattern])
  }

  ghost predicate HasPattern(es: seq<Entry>, p: string)
  {
    exists i :: 0 <= i < |es| && es[i].pattern == p
  }

  ghost predicate DistinctPatterns(es: seq<Entry>)
  {
    forall i, j :: 0 <= i < j < |es| ==> es[i].pattern != es[j].pattern
  }

  /** One entry per mapping, in any order that is sorted by rank. */
  ghost predicate IndexOf(m: map<string, string>, es: seq<Entry>)
  {
    && Sorted(es) && DistinctPatterns(es)
    && (forall i {:trigger Faithful(m, es[i])} :: 0 <= i < |es| ==> Faithful(m, es[i]))
    && (forall p {:trigger HasPattern(es, p)} :: p in m ==> HasPattern(es, p))
  }

  /** The loop that computes the specificity of a pattern. */
  method ComputeSpecificity(segs: seq<string>) returns (spec: nat)
    ensures spec == Specificity(segs) == 2 * |Literals(segs)| + |Prefixes(segs)|
  {
    SpecificityCounts(segs);
    spec := 0;
    for i := 0 to |segs|
      invariant spec == Specificity(segs[..i])
    {
      assert segs[..i + 1][..i] == segs[..i];
      if segs[i] == "*" || segs[i] == ">" {
      } else if Starred(segs[i]) {
        spec := spec + 1;
      } else {
        spec := spec + 2;
      }
    }
    assert segs[..|segs|] == segs;
  }

  /** r is es with e put in at position k. */
  ghost predicate Inserted(es: seq<Entry>, e: Entry, k: nat, r: seq<Entry>)
  {
    && k <= |es| && |r| == |es| + 1 && r[k] == e
    && (forall i :: 0 <= i < k ==> r[i] == es[i])
    && (forall i {:trigger r[i]} :: k < i < |r| ==> r[i] == es[i - 1])
  }

  /** Sorting step: e goes behind all entries that it is not strictly above. */
  method Insert(es: seq<Entry>, e: Entry) returns (r: seq<Entry>, ghost k: nat)
    requires Sorted(es)
    ensures Sorted(r) && Inserted(es, e, k, r)
  {
    var n := |es|;
    while n > 0 && Above(e, es[n - 1])
      invariant 0 <= n <= |es|
      invariant forall i :: n <= i < |es| ==> Above(e, es[i])
    {
      n := n - 1;
    }
    k := n;
    r := es[..n] + [e] + es[n..];
  }

  /** The index while the mappings of the patterns `done` have been added. */
  ghost predicate PartialIndex(m: map<string, string>, es: seq<Entry>, done: set<string>)
  {
    && Sorted(es) && DistinctPatterns(es)
    && (forall i {:trigger Faithful(m, es[i])} :: 0 <= i < |es| ==> Faithful(m, es[i]) && es[i].pattern in done)
    && (forall p {:trigger HasPattern(es, p)} :: p in done ==> HasPattern(es, p))
  }

  /** One round of the loop over the mappings, with the new entry put in its place. */
  method AddEntry(m: map<string, string>, es: seq<Entry>, pat: string, ghost done: set<string>)
      returns (es': seq<Entry>)
    requires PartialIndex(m, es, done) && pat in m && pat !in done
    ensures PartialIndex(m, es', done + {pat})
  {
    var segs := Split(pat);
    var spec := ComputeSpecificity(segs);
    var e := Entry(pat, m[pat], segs, spec);
    ghost var k;
    es', k := Insert(es, e);
    assert Faithful(m, e);
    InsertKeepsIndex(m, es, e, done, k, es');
  }

  /** Where the entries of the longer list come from. */
  lemma Origin(es: seq<Entry>, e: Entry, k: nat, r: seq<Entry>, i: nat)
    requires Inserted(es, e, k, r) && i < |r|
    ensures i != k ==> r[i] == es[if i < k then i else i - 1]
  {
  }

  lemma InsertKeepsIndex(m: map<string, string>, es: seq<Entry>, e: Entry, done: set<string>, k: nat, es': seq<Entry>)
    requires PartialIndex(m, es, done) && Faithful(m, e) && e.pattern !in done
    requires Inserted(es, e, k, es') && Sorted(es')
    ensures PartialIndex(m, es', done + {e.pattern})
  {
    forall i | 0 <= i < |es'|
      ensures Faithful(m, es'[i]) && es'[i].pattern in done + {e.pattern} && (i != k ==> es'[i].pattern in done)
    {
      Origin(es, e, k, es', i);
      if i != k {
        assert Faithful(m, es[if i < k then i else i - 1]);
      }
    }
    forall p | p in done + {e.pattern}
      ensures HasPattern(es', p)
    {
      if p == e.pattern {
        assert es'[k].pattern == p;
      } else {
        assert HasPattern(es, p);
        var i :| 0 <= i < |es| && es[i].pattern == p;
        Origin(es, e, k, es', if i < k then i else i + 1);
      }
    }
    InsertKeepsDistinct(es, e, k, es');
  }

  lemma InsertKeepsDistinct(es: seq<Entry>, e: Entry, k: nat, r: seq<Entry>)
    requires Inserted(es, e, k, r) && DistinctPatterns(es)
    requires forall i :: 0 <= i < |r| && i != k ==> r[i].pattern != e.pattern
    ensures DistinctPatterns(r)
  {
    forall i, j | 0 <= i < j < |r|
      ensures r[i].pattern != r[j].pattern
    {
      Origin(es, e, k, r, i);
      Origin(es, e, k, r, j);
    }
  }

  /** newTopicTypeIndex: nil for no mappings, else a sorted index.  The mappings are visited in an
      arbitrary order, so entries of equal rank come in an arbitrary order. */
  method NewTopicTypeIndex(m: map<string, string>) returns (index: Option<seq<Entry>>)
    ensures index.None? <==> |m| == 0
    ensures index.Some? ==> IndexOf(m, index.value)
  {
    if |m| == 0 {
      return None;
    }
    var es: seq<Entry> := [];
    var todo := m.Keys;
    while todo != {}
      invariant todo <= m.Keys && PartialIndex(m, es, m.Keys - todo)
      decreases todo
    {
      var pat :| pat in todo;
      es := AddEntry(m, es, pat, m.Keys - todo);
      assert m.Keys - (todo - {pat}) == (m.Keys - todo) + {pat};
      todo := todo - {pat};
    }
    index := Some(es);
  }

  // ---- Lookup ----

  datatype Result = Type(msgType: string) | Ambiguous

  ghost function Matching(m: map<string, string>, topic: string): set<string>
  {
    set p | p in m && Matches(Split(topic), Split(p))
  }

  /** The matching patterns that no matching pattern is more specific than. */
  ghost function Best(m: map<string, string>, topic: string): set<string>
  {
    set p | p in Matching(m, topic)
            && forall q :: q in Matching(m, topic) ==> !Above(EntryOf(q, m[q]), EntryOf(p, m[p]))
  }

  /** The most specific match, if there is just one. */
  ghost predicate IsMostSpecific(m: map<string, string>, topic: string, r: Result)
  {
    && (Matching(m, topic) == {} ==> r == Type(""))
    && ((exists p, q :: p in Best(m, topic) && q in Best(m, topic) && p != q) ==> r == Ambiguous)
    && (forall p :: Best(m, topic) == {p} ==> p in m && r == Type(m[p]))
  }

  // The lookup loop, seen on entries alone: `hit` says which of them match.

  ghost function BestEntries(es: seq<Entry>, hit: Entry -> bool): set<Entry>
  {
    set e | e in es && hit(e) && forall f :: f in es && hit(f) ==> !Above(f, e)
  }

  lemma FirstHitIsBest(es: seq<Entry>, hit: Entry -> bool, j: nat)
    requires Sorted(es) && j < |es| && hit(es[j]) && forall i :: 0 <= i < j ==> !hit(es[i])
    ensures es[j] in BestEntries(es, hit)
  {
    forall f | f in es && hit(f)
      ensures !Above(f, es[j])
    {
      var k :| 0 <= k < |es| && es[k] == f;
    }
  }

  lemma SecondHitIsBest(es: seq<Entry>, hit: Entry -> bool, j: nat, i: nat)
    requires Sorted(es) && j < i < |es| && hit(es[j]) && hit(es[i]) && SameRank(es[i], es[j])
    requires forall k :: 0 <= k < j ==> !hit(es[k])
    ensures es[i] in BestEntries(es, hit)
  {
    FirstHitIsBest(es, hit, j);
  }

  lemma OnlyHitIsBest(es: seq<Entry>, hit: Entry -> bool, j: nat, i: nat)
    requires Sorted(es) && j < i <= |es| && hit(es[j])
    requires forall k :: 0 <= k < i && k != j ==> !hit(es[k])
    requires i < |es| ==> !SameRank(es[i], es[j])
    ensures BestEntries(es, hit) == {es[j]}
  {
    FirstHitIsBest(es, hit, j);
    forall e | e in BestEntries(es, hit)
      ensures e == es[j]
    {
      var k :| 0 <= k < |es| && es[k] == e;
    }
  }

  // The step from entries to patterns.

  ghost predicate Hits(topic: string, hit: Entry -> bool)
  {
    forall e: Entry {:trigger hit(e)} :: hit(e) <==> Matches(Split(topic), e.segments)
  }

  lemma EntryAt(m: map<string, string>, es: seq<Entry>, p: string) returns (i: nat)
    requires IndexOf(m, es) && p in m
    ensures i < |es| && es[i] == EntryOf(p, m[p]) && es[i] in es
  {
    assert HasPattern(es, p);
    i :| 0 <= i < |es| && es[i].pattern == p;
    assert Faithful(m, es[i]);
  }

  lemma PatternHit(m: map<string, string>, es: seq<Entry>, topic: string, hit: Entry -> bool, p: string)
    requires IndexOf(m, es) && Hits(topic, hit)
    ensures p in Matching(m, topic) <==> p in m && hit(EntryOf(p, m[p]))
  {
    if p in m {
      assert hit(EntryOf(p, m[p])) <==> Matches(Split(topic), EntryOf(p, m[p]).segments);
    }
  }

  lemma EntryBelongs(m: map<string, string>, es: seq<Entry>, e: Entry)
    requires IndexOf(m, es) && e in es
    ensures e.pattern in m && e == EntryOf(e.pattern, m[e.pattern]) && e.msgType == m[e.pattern]
  {
    var i :| 0 <= i < |es| && es[i] == e;
    assert Faithful(m, es[i]);
  }

  /** The best patterns are the patterns of the best entries. */
  lemma BestIsBestEntries(m: map<string, string>, es: seq<Entry>, topic: string, hit: Entry -> bool, p: string)
    requires IndexOf(m, es) && Hits(topic, hit) && p in m
    ensures p in Best(m, topic) <==> EntryOf(p, m[p]) in BestEntries(es, hit)
  {
    var i := EntryAt(m, es, p);
    PatternHit(m, es, topic, hit, p);
    if EntryOf(p, m[p]) in BestEntries(es, hit) {
      forall q | q in Matching(m, topic)
        ensures !Above(EntryOf(q, m[q]), EntryOf(p, m[p]))
      {
        PatternHit(m, es, topic, hit, q);
        var k := EntryAt(m, es, q);
      }
    }
    if p in Best(m, topic) {
      forall f | f in es && hit(f)
        ensures !Above(f, EntryOf(p, m[p]))
      {
        EntryBelongs(m, es, f);
        PatternHit(m, es, topic, hit, f.pattern);
      }
    }
  }

  lemma TwoBest(m: map<string, string>, es: seq<Entry>, topic: string, hit: Entry -> bool, e: Entry, f: Entry)
    requires IndexOf(m, es) && Hits(topic, hit) && e.pattern != f.pattern
    requires e in BestEntries(es, hit) && f in BestEntries(es, hit)
    ensures IsMostSpecific(m, topic, Ambiguous)
  {
    EntryBelongs(m, es, e);
    EntryBelongs(m, es, f);
    BestIsBestEntries(m, es, topic, hit, e.pattern);
    BestIsBestEntries(m, es, topic, hit, f.pattern);
    assert e.pattern in Matching(m, topic);
  }

  lemma OneBest(m: map<string, string>, es: seq<Entry>, topic: string, hit: Entry -> bool, e: Entry)
    requires IndexOf(m, es) && Hits(topic, hit) && BestEntries(es, hit) == {e}
    ensures IsMostSpecific(m, topic, Type(e.msgType))
  {
    assert e in BestEntries(es, hit);
    EntryBelongs(m, es, e);
    forall p | p in m
      ensures p in Best(m, topic) <==> p == e.pattern
    {
      BestIsBestEntries(m, es, topic, hit, p);
      assert EntryOf(p, m[p]) in BestEntries(es, hit) <==> EntryOf(p, m[p]) == e;
    }
    assert Best(m, topic) == {e.pattern};
    assert e.pattern in Matching(m, topic);
  }

  lemma NoneBest(m: map<string, string>, es: seq<Entry>, topic: string, hit: Entry -> bool)
    requires IndexOf(m, es) && Hits(topic, hit) && forall k :: 0 <= k < |es| ==> !hit(es[k])
    ensures IsMostSpecific(m, topic, Type(""))
  {
    forall p | p in m
      ensures p !in Matching(m, topic)
    {
      var k := EntryAt(m, es, p);
      PatternHit(m, es, topic, hit, p);
    }
    assert Matching(m, topic) == {};
  }

  /** The three cases of the declarative result exclude each other and leave no fourth. */
  lemma MostSpecificIsUnique(m: map<string, string>, topic: string, r: Result, r': Result)
    requires IsMostSpecific(m, topic, r) && IsMostSpecific(m, topic, r')
    ensures r == r'
  {
    if Matching(m, topic) != {} {
      var p := SomeBest(m, topic, Matching(m, topic));
      assert p in Best(m, topic);
      if q :| q in Best(m, topic) && q != p {
      } else {
        assert Best(m, topic) == {p};
      }
    }
  }

  /** Some matching pattern has no matching pattern above it. */
  lemma {:induction false} SomeBest(m: map<string, string>, topic: string, some: set<string>) returns (p: string)
    requires some != {} && some <= Matching(m, topic)
    ensures p in some && forall q :: q in some ==> !Above(EntryOf(q, m[q]), EntryOf(p, m[p]))
    decreases some
  {
    var x :| x in some;
    if some == {x} {
      p := x;
    } else {
      var y := SomeBest(m, topic, some - {x});
      p := if Above(EntryOf(x, m[x]), EntryOf(y, m[y])) then x else y;
      forall q | q in some
        ensures !Above(EntryOf(q, m[q]), EntryOf(p, m[p]))
      {
        assert q == x || q in some - {x};
      }
    }
  }

  /** The scan of Lookup over the entries. */
  method Scan(es: seq<Entry>, tl: seq<string>, ghost hit: Entry -> bool)
      returns (matched: int, second: int, ghost stop: nat)
    requires Sorted(es) && forall e: Entry {:trigger hit(e)} :: hit(e) <==> Matches(tl, e.segments)
    ensures -1 <= matched < |es| && -1 <= second < |es|
    ensures matched == -1 ==> second == -1 && forall k :: 0 <= k < |es| ==> !hit(es[k])
    ensures matched >= 0 ==> hit(es[matched]) && forall k :: 0 <= k < matched ==> !hit(es[k])
    ensures second >= 0 ==> 0 <= matched < second && hit(es[second]) && SameRank(es[second], es[matched])
    ensures matched >= 0 && second == -1 ==>
              && matched < stop <= |es| && (forall k :: 0 <= k < stop && k != matched ==> !hit(es[k]))
              && (stop < |es| ==> !SameRank(es[stop], es[matched]))
  {
    matched, second, stop := -1, -1, 0;
    var i := 0;
    while i < |es|
      invariant 0 <= i <= |es| && -1 <= matched < i && stop == i
      invariant forall k :: 0 <= k < i && k != matched ==> !hit(es[k])
      invariant matched >= 0 ==> hit(es[matched])
    {
      if matched >= 0 && !SameRank(es[i], es[matched]) {
        return;
      }
      var ok := MatchTopicLevels(tl, es[i].segments);
      assert ok == hit(es[i]);
      if ok {
        if matched >= 0 {
          second := i;
          return;
        }
        matched := i;
      }
      i := i + 1;
      stop := i;
    }
  }

  /** Lookup agrees with the declarative most specific match, whatever order equal entries are in. */
  method Lookup(index: Option<seq<Entry>>, topic: string, ghost m: map<string, string>) returns (r: Result)
    requires index.None? ==> |m| == 0
    requires index.Some? ==> IndexOf(m, index.value)
    ensures IsMostSpecific(m, topic, r)
  {
    if index.None? {
      return Type("");
    }
    var es, tl := index.value, Split(topic);
    ghost var hit := (e: Entry) => Matches(tl, e.segments);
    var matched, second, stop := Scan(es, tl, hit);
    if matched < 0 {
      NoneBest(m, es, topic, hit);
      return Type("");
    }
    FirstHitIsBest(es, hit, matched);
    if second >= 0 {
      SecondHitIsBest(es, hit, matched, second);
      TwoBest(m, es, topic, hit, es[matched], es[second]);
      return Ambiguous;
    }
    OnlyHitIsBest(es, hit, matched, stop);
    OneBest(m, es, topic, hit, es[matched]);
    r := Type(es[matched].msgType);
  }

  // ---- Specificity respects meaning ----

  /** Every topic that P matches is matched by Q. */
  ghost predicate Covers(Q: seq<string>, P: seq<string>)
  {
    forall topic: string :: Matches(Split(topic), P) ==> Matches(Split(topic), Q)
  }

  lemma CoversLevels(Q: seq<string>, P: seq<string>, tl: seq<string>)
    requires Covers(Q, P) && Levels(tl) && Matches(tl, P)
    ensures Matches(tl, Q)
  {
    SplitJoin(tl);
    assert Matches(Split(Join(tl)), P);
  }

  /** A covering pattern has no more levels, and is open-ended if the covered one is. */
  lemma CoverLengths(Q: seq<string>, P: seq<string>, tl: seq<string>)
    requires Covers(Q, P) && Levels(tl) && Levels(P) && Matches(tl, P)
    ensures |Q| <= |P| && Fixed(Q) <= Fixed(P)
  {
    if OpenEnded(P) {
      var t0 := tl[..|P|];
      assert Matches(t0, P);
      assert forall i :: 0 <= i < |t0| ==> t0[i] == tl[i];
      CoversLevels(Q, P, t0);
      var t1 := t0 + ["a"];
      assert forall i :: 0 <= i < |P| ==> t1[i] == t0[i];
      assert Matches(t1, P);
      CoversLevels(Q, P, t1);
    } else {
      CoversLevels(Q, P, tl);
    }
  }

  /** Replacing one level of a matching topic by another string of the same pattern level. */
  lemma Swap(Q: seq<string>, P: seq<string>, tl: seq<string>, i: nat, s: string)
    requires Covers(Q, P) && Levels(tl) && Matches(tl, P) && i < Fixed(P) && i < Fixed(Q)
    requires LevelMatches(s, P[i]) && '/' !in s
    ensures LevelMatches(s, Q[i])
  {
    var t' := tl[i := s];
    assert Matches(t', P);
    CoversLevels(Q, P, t');
    assert t'[i] == s;
  }

  lemma CoverLevel(Q: seq<string>, P: seq<string>, tl: seq<string>, i: nat)
    requires Covers(Q, P) && Levels(tl) && Levels(P) && Matches(tl, P) && i < Fixed(P) && i < Fixed(Q)
    ensures LevelRank(P[i]) >= LevelRank(Q[i])
  {
    var p := P[i];
    assert '/' !in p;
    assert LevelMatches(tl[i], p);
    if Starred(p) {
      var y := Stem(p);
      assert forall c :: c in y ==> c in p;
      var a, b := y + "a", y + "b";
      assert a[|y|] != b[|y|];
      Swap(Q, P, tl, i, a);
      Swap(Q, P, tl, i, b);
      Swap(Q, P, tl, i, y);
      if p == "*" {
        assert y == "";
        assert Starred(Q[i]) && Stem(Q[i]) == "";
        assert Q[i] == Stem(Q[i]) + "*";
      }
    }
  }

  lemma {:induction false} SpecificityPrefix(P: seq<string>, n: nat)
    requires n <= |P|
    ensures Specificity(P[..n]) <= Specificity(P)
    decreases |P|
  {
    if n < |P| {
      SpecificityPrefix(P[..|P| - 1], n);
      assert P[..|P| - 1][..n] == P[..n];
    } else {
      assert P[..n] == P;
    }
  }

  lemma {:induction false} PrefixRanks(Q: seq<string>, P: seq<string>, n: nat)
    requires n <= |Q| && n <= |P| && forall i :: 0 <= i < n ==> LevelRank(P[i]) >= LevelRank(Q[i])
    ensures Specificity(P[..n]) >= Specificity(Q[..n])
  {
    if n > 0 {
      PrefixRanks(Q, P, n - 1);
      assert P[..n][..n - 1] == P[..n - 1] && Q[..n][..n - 1] == Q[..n - 1];
    }
  }

  /** If P matches some topic and Q matches all topics that P matches, then Q does not rank above P. */
  lemma SpecificityRespectsMeaning(P: string, Q: string, topic: string)
    requires Matches(Split(topic), Split(P)) && Covers(Split(Q), Split(P))
    ensures !Above(EntryOf(Q, ""), EntryOf(P, ""))
  {
    var tl, pl, ql := Split(topic), Split(P), Split(Q);
    SplitIsLevels(topic);
    SplitIsLevels(P);
    CoverLengths(ql, pl, tl);
    var n := Fixed(ql);
    forall i | 0 <= i < n
      ensures LevelRank(pl[i]) >= LevelRank(ql[i])
    {
      CoverLevel(ql, pl, tl, i);
    }
    PrefixRanks(ql, pl, n);
    SpecificityPrefix(pl, n);
    if OpenEnded(ql) {
      assert ql[..|ql| - 1] == ql[..n];
    } else {
      assert ql[..n] == ql;
    }
  }

  lemma EqualRankIsBest(m: map<string, string>, topic: string, P: string, Q: string)
    requires Q in Best(m, topic) && P in Matching(m, topic) && !Above(EntryOf(Q, m[Q]), EntryOf(P, m[P]))
    ensures P in Best(m, topic)
  {
    var p, q := EntryOf(P, m[P]), EntryOf(Q, m[Q]);
    forall r | r in Matching(m, topic)
      ensures !Above(EntryOf(r, m[r]), p)
    {
      assert !Above(EntryOf(r, m[r]), q) && !Above(p, q);
    }
  }

  /** Lookup never settles on a pattern that covers another matching pattern. */
  lemma CoveringPatternIsNotChosen(m: map<string, string>, P: string, Q: string, topic: string)
    requires P in m && Q in m && P != Q && Matches(Split(topic), Split(P)) && Covers(Split(Q), Split(P))
    ensures Best(m, topic) != {Q}
  {
    SpecificityRespectsMeaning(P, Q, topic);
    if Q in Best(m, topic) {
      EqualRankIsBest(m, topic, P, Q);
    }
  }
}
