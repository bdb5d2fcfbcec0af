/** Comparison of two snippet packs by emoji content.

    Each pack's non-comment snippets are grouped by payload into an
    insertion-ordered dict (payload to the snippets carrying it); `removed`
    holds the groups of the reference pack ("theirs") whose payload the
    candidate ("mine") lacks, and `added` the groups of the candidate whose
    payload the reference lacks.
 */
module Comparison {
  import opened Snippets
  import opened Pack

  /** One item of a dict from payload to snippets. */
  type Entry = (string, seq<AlfredSnippet>)

  /** A Python dict[str, list[AlfredSnippet]], as its items in insertion order. */
  type Groups = seq<Entry>

  datatype EmojiComparison = EmojiComparison(added: Groups, removed: Groups)

  /** A snippet whose name starts with '#' is a comment and takes no part in
      the comparison. */
  predicate IsComment(s: AlfredSnippet)
  {
    |s.name| > 0 && s.name[0] == '#'
  }

  function Keys(d: Groups): seq<string>
  {
    seq(|d|, i requires 0 <= i < |d| => d[i].0)
  }

  ghost predicate DistinctKeys(d: Groups)
  {
    forall i, j :: 0 <= i < j < |d| ==> d[i].0 != d[j].0
  }

  // ---------------------------------------------------------------------------
  // Occurrences of a payload in a snippet sequence
  // ---------------------------------------------------------------------------

  /** Position q of s holds a non-comment snippet with payload k. */
  predicate IsOccurrence(s: seq<AlfredSnippet>, q: int, k: string)
    requires 0 <= q < |s|
  {
    !IsComment(s[q]) && s[q].snippet == k
  }

  ghost predicate Occurs(s: seq<AlfredSnippet>, k: string)
  {
    exists q :: 0 <= q < |s| && IsOccurrence(s, q, k)
  }

  /** Payload k occurs somewhere before position q. */
  ghost predicate OccursBefore(s: seq<AlfredSnippet>, k: string, q: int)
  {
    exists p :: 0 <= p < q && p < |s| && IsOccurrence(s, p, k)
  }

  /** Every occurrence of b is preceded by an occurrence of a: a's first
      occurrence comes before b's. */
  ghost predicate FirstBefore(s: seq<AlfredSnippet>, a: string, b: string)
  {
    forall q :: 0 <= q < |s| && IsOccurrence(s, q, b) ==> OccursBefore(s, a, q)
  }

  lemma OccursSnoc(s: seq<AlfredSnippet>, x: AlfredSnippet)
    ensures forall k :: Occurs(s + [x], k) <==> Occurs(s, k) || (!IsComment(x) && x.snippet == k)
  {
    var t := s + [x];
    forall k
      ensures Occurs(t, k) <==> Occurs(s, k) || (!IsComment(x) && x.snippet == k)
    {
      if Occurs(t, k) {
        var q :| 0 <= q < |t| && IsOccurrence(t, q, k);
        if q < |s| {
          assert IsOccurrence(s, q, k);
        }
      }
      if Occurs(s, k) {
        var q :| 0 <= q < |s| && IsOccurrence(s, q, k);
        assert IsOccurrence(t, q, k);
      }
      if !IsComment(x) && x.snippet == k {
        assert IsOccurrence(t, |s|, k);
      }
    }
  }

  // ---------------------------------------------------------------------------
  // The grouping, specified in closed form
  // ---------------------------------------------------------------------------

  /** The non-comment snippets of s, in order. */
  function NonComments(s: seq<AlfredSnippet>): seq<AlfredSnippet>
  {
    if s == [] then []
    else NonComments(s[..|s| - 1]) + if IsComment(s[|s| - 1]) then [] else [s[|s| - 1]]
  }

  /** The distinct payloads of the non-comment snippets of s, in order of
      first occurrence. */
  function FirstPayloads(s: seq<AlfredSnippet>): seq<string>
  {
    if s == [] then []
    else
      var ks := FirstPayloads(s[..|s| - 1]);
      var x := s[|s| - 1];
      if IsComment(x) || x.snippet in ks then ks else ks + [x.snippet]
  }

  /** The non-comment snippets of s with payload k, in input order. */
  function WithPayload(s: seq<AlfredSnippet>, k: string): (r: seq<AlfredSnippet>)
    ensures forall x :: x in r ==> x in s && !IsComment(x) && x.snippet == k
  {
    if s == [] then []
    else
      var init, x := s[..|s| - 1], s[|s| - 1];
      WithPayload(init, k) + if !IsComment(x) && x.snippet == k then [x] else []
  }

  /** What grouping s must produce: one entry per distinct non-comment payload,
      in order of first occurrence, holding every non-comment snippet with that
      payload in input order. */
  function GroupSpec(s: seq<AlfredSnippet>): Groups
  {
    var ks := FirstPayloads(s);
    seq(|ks|, i requires 0 <= i < |ks| => (ks[i], WithPayload(s, ks[i])))
  }

  /** The snippets of all entries of d, one entry after another. */
  function Flatten(d: Groups): seq<AlfredSnippet>
  {
    if d == [] then [] else Flatten(d[..|d| - 1]) + d[|d| - 1].1
  }

  lemma SnocFirst(s: seq<AlfredSnippet>, x: AlfredSnippet)
    ensures FirstPayloads(s + [x]) ==
      if IsComment(x) || x.snippet in FirstPayloads(s) then FirstPayloads(s) else FirstPayloads(s) + [x.snippet]
  {
    assert (s + [x])[..|s|] == s;
  }

  lemma SnocWith(s: seq<AlfredSnippet>, x: AlfredSnippet, k: string)
    ensures WithPayload(s + [x], k) ==
      if !IsComment(x) && x.snippet == k then WithPayload(s, k) + [x] else WithPayload(s, k)
  {
    assert (s + [x])[..|s|] == s;
  }

  lemma SnocNonComments(s: seq<AlfredSnippet>, x: AlfredSnippet)
    ensures NonComments(s + [x]) == if IsComment(x) then NonComments(s) else NonComments(s) + [x]
  {
    assert (s + [x])[..|s|] == s;
  }

  /** The first-occurrence payloads are exactly the payloads that occur, and
      each is listed once. */
  lemma {:induction false} FirstPayloadsOccur(s: seq<AlfredSnippet>)
    ensures forall k :: k in FirstPayloads(s) <==> Occurs(s, k)
    ensures forall i, j :: 0 <= i < j < |FirstPayloads(s)| ==> FirstPayloads(s)[i] != FirstPayloads(s)[j]
  {
    if s != [] {
      var init, x := s[..|s| - 1], s[|s| - 1];
      assert s == init + [x];
      FirstPayloadsOccur(init);
      OccursSnoc(init, x);
      SnocFirst(init, x);
    }
  }

  lemma FirstBeforeSnoc(s: seq<AlfredSnippet>, x: AlfredSnippet, a: string, b: string)
    requires FirstBefore(s, a, b) && Occurs(s, b)
    ensures FirstBefore(s + [x], a, b)
  {
    var t := s + [x];
    forall q | 0 <= q < |t| && IsOccurrence(t, q, b)
      ensures OccursBefore(t, a, q)
    {
      var q0 := q;
      if q == |s| {
        q0 :| 0 <= q0 < |s| && IsOccurrence(s, q0, b);
      } else {
        assert IsOccurrence(s, q0, b);
      }
      var p :| 0 <= p < q0 && p < |s| && IsOccurrence(s, p, a);
      assert IsOccurrence(t, p, a);
    }
  }

  lemma FirstBeforeNew(s: seq<AlfredSnippet>, x: AlfredSnippet, a: string)
    requires Occurs(s, a) && !Occurs(s, x.snippet)
    ensures FirstBefore(s + [x], a, x.snippet)
  {
    var t := s + [x];
    var p :| 0 <= p < |s| && IsOccurrence(s, p, a);
    assert IsOccurrence(t, p, a);
    forall q | 0 <= q < |t| && IsOccurrence(t, q, x.snippet)
      ensures OccursBefore(t, a, q)
    {
      assert q < |s| ==> IsOccurrence(s, q, x.snippet);
    }
  }

  /** The payloads are listed in the order of their first occurrences. */
  lemma {:induction false} FirstPayloadsOrder(s: seq<AlfredSnippet>)
    ensures forall i, j :: 0 <= i < j < |FirstPayloads(s)| ==>
      FirstBefore(s, FirstPayloads(s)[i], FirstPayloads(s)[j])
  {
    if s != [] {
      var init, x := s[..|s| - 1], s[|s| - 1];
      assert s == init + [x];
      var ks0, ks := FirstPayloads(init), FirstPayloads(s);
      FirstPayloadsOrder(init);
      FirstPayloadsOccur(init);
      SnocFirst(init, x);
      forall i, j | 0 <= i < j < |ks|
        ensures FirstBefore(s, ks[i], ks[j])
      {
        assert ks[i] == ks0[i];
        if j < |ks0| {
          assert ks[j] == ks0[j];
          FirstBeforeSnoc(init, x, ks0[i], ks0[j]);
        } else {
          assert ks[j] == x.snippet && x.snippet !in ks0;
          FirstBeforeNew(init, x, ks0[i]);
        }
      }
    }
  }

  /** A payload has snippets exactly when it occurs. */
  lemma {:induction false} WithPayloadOccurs(s: seq<AlfredSnippet>, k: string)
    ensures WithPayload(s, k) != [] <==> Occurs(s, k)
  {
    if s != [] {
      var init, x := s[..|s| - 1], s[|s| - 1];
      assert s == init + [x];
      WithPayloadOccurs(init, k);
      OccursSnoc(init, x);
      SnocWith(init, x, k);
    }
  }

  /** Every non-comment snippet is among the snippets of its own payload. */
  lemma {:induction false} WithPayloadHolds(s: seq<AlfredSnippet>, q: nat)
    requires q < |s| && !IsComment(s[q])
    ensures s[q] in WithPayload(s, s[q].snippet)
  {
    var init, x := s[..|s| - 1], s[|s| - 1];
    assert s == init + [x];
    SnocWith(init, x, s[q].snippet);
    if q < |init| {
      WithPayloadHolds(init, q);
    }
  }

  /** Appending a comment leaves the grouping unchanged. */
  lemma GroupSnocComment(s: seq<AlfredSnippet>, x: AlfredSnippet)
    requires IsComment(x)
    ensures GroupSpec(s + [x]) == GroupSpec(s)
  {
    SnocFirst(s, x);
    var d, d' := GroupSpec(s), GroupSpec(s + [x]);
    assert |d'| == |d|;
    forall i | 0 <= i < |d|
      ensures d'[i] == d[i]
    {
      SnocWith(s, x, d[i].0);
    }
  }

  /** Appending a snippet whose payload is already a key appends it to that
      key's list (`setdefault` finds the list). */
  lemma GroupSnocExisting(s: seq<AlfredSnippet>, x: AlfredSnippet, j: nat)
    requires !IsComment(x)
    requires j < |GroupSpec(s)| && GroupSpec(s)[j].0 == x.snippet
    ensures GroupSpec(s + [x]) == GroupSpec(s)[j := (x.snippet, GroupSpec(s)[j].1 + [x])]
  {
    var ks := FirstPayloads(s);
    SnocFirst(s, x);
    FirstPayloadsOccur(s);
    assert x.snippet == ks[j];
    var d, d' := GroupSpec(s), GroupSpec(s + [x]);
    var e := d[j := (x.snippet, d[j].1 + [x])];
    assert FirstPayloads(s + [x]) == ks;
    assert |d'| == |e|;
    forall i | 0 <= i < |d'|
      ensures d'[i] == e[i]
    {
      SnocWith(s, x, ks[i]);
      if i != j {
        assert ks[i] != ks[j];
      }
    }
  }

  lemma WithPayloadEmpty(s: seq<AlfredSnippet>, k: string)
    requires k !in FirstPayloads(s)
    ensures WithPayload(s, k) == []
  {
    FirstPayloadsOccur(s);
    WithPayloadOccurs(s, k);
  }

  /** Appending a snippet with a new payload adds a key at the end with a
      one-element list (`setdefault` inserts the list). */
  lemma GroupSnocNew(s: seq<AlfredSnippet>, x: AlfredSnippet)
    requires !IsComment(x)
    requires forall i :: 0 <= i < |GroupSpec(s)| ==> GroupSpec(s)[i].0 != x.snippet
    ensures GroupSpec(s + [x]) == GroupSpec(s) + [(x.snippet, [x])]
  {
    var ks := FirstPayloads(s);
    var d := GroupSpec(s);
    assert x.snippet !in ks by {
      assert forall i :: 0 <= i < |ks| ==> d[i].0 == ks[i];
    }
    SnocFirst(s, x);
    WithPayloadEmpty(s, x.snippet);
    var ks' := ks + [x.snippet];
    assert FirstPayloads(s + [x]) == ks';
    var d', e := GroupSpec(s + [x]), d + [(x.snippet, [x])];
    assert |d'| == |e|;
    forall i | 0 <= i < |d'|
      ensures d'[i] == e[i]
    {
      SnocWith(s, x, ks'[i]);
      if i < |ks| {
        assert ks'[i] == ks[i] != x.snippet;
        assert e[i] == d[i] == (ks[i], WithPayload(s, ks[i]));
      } else {
        assert i == |ks| == |d|;
        assert ks'[i] == x.snippet;
        assert e[i] == (x.snippet, [x]);
        assert WithPayload(s, x.snippet) + [x] == [x];
      }
    }
  }

  /** The grouping partitions the non-comment snippets by payload, with
      distinct keys and non-empty lists. */
  lemma GroupingPartition(s: seq<AlfredSnippet>)
    ensures DistinctKeys(GroupSpec(s))
    ensures forall i :: 0 <= i < |GroupSpec(s)| ==> GroupSpec(s)[i].1 != []
    ensures forall i, x :: 0 <= i < |GroupSpec(s)| && x in GroupSpec(s)[i].1 ==>
      x in s && !IsComment(x) && x.snippet == GroupSpec(s)[i].0
    ensures forall q :: 0 <= q < |s| && !IsComment(s[q]) ==>
      exists i :: 0 <= i < |GroupSpec(s)| && GroupSpec(s)[i].0 == s[q].snippet && s[q] in GroupSpec(s)[i].1
    ensures forall q, i :: 0 <= q < |s| && !IsComment(s[q]) && 0 <= i < |GroupSpec(s)| ==>
      (s[q] in GroupSpec(s)[i].1 <==> GroupSpec(s)[i].0 == s[q].snippet)
  {
    var d, ks := GroupSpec(s), FirstPayloads(s);
    FirstPayloadsOccur(s);
    forall i | 0 <= i < |d|
      ensures d[i].1 != []
    {
      WithPayloadOccurs(s, ks[i]);
    }
    forall q | 0 <= q < |s| && !IsComment(s[q])
      ensures exists i :: 0 <= i < |d| && d[i].0 == s[q].snippet && s[q] in d[i].1
    {
      assert IsOccurrence(s, q, s[q].snippet);
      assert Occurs(s, s[q].snippet);
      var i :| 0 <= i < |ks| && ks[i] == s[q].snippet;
      WithPayloadHolds(s, q);
      assert d[i].0 == s[q].snippet && s[q] in d[i].1;
    }
  }

  lemma {:induction false} FlattenUpdate(d: Groups, j: nat, k: string, v: AlfredSnippet)
    requires j < |d|
    ensures multiset(Flatten(d[j := (k, d[j].1 + [v])])) == multiset(Flatten(d)) + multiset{v}
    decreases |d|
  {
    var d' := d[j := (k, d[j].1 + [v])];
    var init, init' := d[..|d| - 1], d'[..|d| - 1];
    if j == |d| - 1 {
      assert init' == init;
    } else {
      assert init' == init[j := (k, init[j].1 + [v])];
      FlattenUpdate(init, j, k, v);
    }
  }

  /** Grouping loses no snippet and duplicates none: the lists together hold
      the non-comment snippets, counted with multiplicity. */
  lemma {:induction false} GroupingKeepsAll(s: seq<AlfredSnippet>)
    ensures multiset(Flatten(GroupSpec(s))) == multiset(NonComments(s))
  {
    if s != [] {
      var init, x := s[..|s| - 1], s[|s| - 1];
      assert s == init + [x];
      GroupingKeepsAll(init);
      SnocNonComments(init, x);
      var d := GroupSpec(init);
      if IsComment(x) {
        GroupSnocComment(init, x);
      } else {
        var j := KeyIndex(d, x.snippet);
        if j < 0 {
          GroupSnocNew(init, x);
          var d' := d + [(x.snippet, [x])];
          assert d'[..|d|] == d;
          assert Flatten(d') == Flatten(d) + [x];
        } else {
          GroupSnocExisting(init, x, j);
          FlattenUpdate(d, j, x.snippet, x);
        }
      }
    }
  }

  // ---------------------------------------------------------------------------
  // The grouping loops
  // ---------------------------------------------------------------------------

  /** The position of key k in d, or -1 when d has no such key: the lookup
      that `setdefault` does. */
  function KeyIndex(d: Groups, k: string): (r: int)
    ensures -1 <= r < |d|
    ensures 0 <= r ==> d[r].0 == k
    ensures r == -1 ==> forall i :: 0 <= i < |d| ==> d[i].0 != k
  {
    if d == [] then -1
    else if d[0].0 == k then 0
    else
      var r := KeyIndex(d[1..], k);
      if r < 0 then -1 else r + 1
  }

  /** Groups the non-comment snippets of a pack by payload, as the two loops of
      compare_packs do with `setdefault(snippet.snippet, []).append(snippet)`. */
  method GroupByEmoji(snippets: seq<AlfredSnippet>) returns (byEmoji: Groups)
    ensures byEmoji == GroupSpec(snippets)
  {
    byEmoji := [];
    var i := 0;
    while i < |snippets|
      invariant 0 <= i <= |snippets|
      invariant byEmoji == GroupSpec(snippets[..i])
    {
      var snippet := snippets[i];
      assert snippets[..i + 1] == snippets[..i] + [snippet];
      if IsComment(snippet) {
        GroupSnocComment(snippets[..i], snippet);
      } else {
        var j := KeyIndex(byEmoji, snippet.snippet);
        if j < 0 {
          GroupSnocNew(snippets[..i], snippet);
          byEmoji := byEmoji + [(snippet.snippet, [snippet])];
        } else {
          GroupSnocExisting(snippets[..i], snippet, j);
          byEmoji := byEmoji[j := (byEmoji[j].0, byEmoji[j].1 + [snippet])];
        }
      }
      i := i + 1;
    }
    assert snippets[..i] == snippets;
  }

  // ---------------------------------------------------------------------------
  // removed and added
  // ---------------------------------------------------------------------------

  /** Entry e1 comes before entry e2 in d. */
  ghost predicate Before(d: Groups, e1: Entry, e2: Entry)
  {
    exists a, b :: 0 <= a < b < |d| && d[a] == e1 && d[b] == e2
  }

  lemma BeforeSnoc(d: Groups, e: Entry)
    ensures forall e1, e2 :: Before(d, e1, e2) ==> Before(d + [e], e1, e2)
    ensures forall e1 :: e1 in d ==> Before(d + [e], e1, e)
  {
    var d' := d + [e];
    forall e1, e2 | Before(d, e1, e2)
      ensures Before(d', e1, e2)
    {
      var a, b :| 0 <= a < b < |d| && d[a] == e1 && d[b] == e2;
      assert d'[a] == e1 && d'[b] == e2;
    }
    forall e1 | e1 in d
      ensures Before(d', e1, e)
    {
      var a :| 0 <= a < |d| && d[a] == e1;
      assert d'[a] == e1 && d'[|d|] == e;
    }
  }

  /** The items of d whose key is not a key of other, in d's order: the dict
      comprehension `{k: v for k, v in d.items() if k not in other}`. */
  function Without(d: Groups, other: Groups): (r: Groups)
    ensures forall e :: e in r <==> e in d && e.0 !in Keys(other)
    ensures forall i, j :: 0 <= i < j < |r| ==> Before(d, r[i], r[j])
  {
    if d == [] then []
    else
      var init, e := d[..|d| - 1], d[|d| - 1];
      assert d == init + [e];
      BeforeSnoc(init, e);
      var r := Without(init, other);
      if e.0 in Keys(other) then r else r + [e]
  }

  lemma WithoutDistinct(d: Groups, other: Groups)
    requires DistinctKeys(d)
    ensures DistinctKeys(Without(d, other))
  {
    var r := Without(d, other);
    forall i, j | 0 <= i < j < |r|
      ensures r[i].0 != r[j].0
    {
      assert Before(d, r[i], r[j]);
    }
  }

  lemma InKeys(d: Groups, k: string)
    ensures k in Keys(d) <==> exists e :: e in d && e.0 == k
  {
    if k in Keys(d) {
      var i :| 0 <= i < |d| && Keys(d)[i] == k;
      assert d[i] in d;
    }
    if exists e :: e in d && e.0 == k {
      var e :| e in d && e.0 == k;
      var i :| 0 <= i < |d| && d[i] == e;
      assert Keys(d)[i] == k;
    }
  }

  /** What compare_packs returns for the reference pack theirs and the
      candidate mine. */
  function Compare(theirs: SnippetPack, mine: SnippetPack): EmojiComparison
  {
    var t, m := GroupSpec(theirs.snippets), GroupSpec(mine.snippets);
    EmojiComparison(added := Without(m, t), removed := Without(t, m))
  }

  /** compare_packs: group both packs, then keep the payloads on one side only. */
  method ComparePacks(theirs: SnippetPack, mine: SnippetPack) returns (c: EmojiComparison)
    ensures c == Compare(theirs, mine)
    ensures forall k :: k in Keys(c.removed) <==> Occurs(theirs.snippets, k) && !Occurs(mine.snippets, k)
    ensures forall k :: k in Keys(c.added) <==> Occurs(mine.snippets, k) && !Occurs(theirs.snippets, k)
  {
    var theirsByEmoji := GroupByEmoji(theirs.snippets);
    var mineByEmoji := GroupByEmoji(mine.snippets);
    var removed := Without(theirsByEmoji, mineByEmoji);
    var added := Without(mineByEmoji, theirsByEmoji);
    c := EmojiComparison(added := added, removed := removed);
    RemovedPayloads(theirs, mine);
    AddedPayloads(theirs, mine);
  }

  // ---------------------------------------------------------------------------
  // Properties of the comparison
  // ---------------------------------------------------------------------------

  /** Swapping the packs swaps added and removed. */
  lemma SwapArguments(theirs: SnippetPack, mine: SnippetPack)
    ensures Compare(mine, theirs) ==
      EmojiComparison(added := Compare(theirs, mine).removed, removed := Compare(theirs, mine).added)
  {
  }

  /** The keys of removed are the payloads of theirs that mine lacks, each with
      its full group from theirs, each key once. */
  lemma RemovedPayloads(theirs: SnippetPack, mine: SnippetPack)
    ensures forall k :: k in Keys(Compare(theirs, mine).removed) <==>
      Occurs(theirs.snippets, k) && !Occurs(mine.snippets, k)
    ensures forall e :: e in Compare(theirs, mine).removed ==> e.1 == WithPayload(theirs.snippets, e.0)
    ensures DistinctKeys(Compare(theirs, mine).removed)
  {
    var ts, ms := theirs.snippets, mine.snippets;
    var t, m := GroupSpec(ts), GroupSpec(ms);
    var r := Compare(theirs, mine).removed;
    assert Keys(t) == FirstPayloads(ts);
    assert Keys(m) == FirstPayloads(ms);
    FirstPayloadsOccur(ts);
    FirstPayloadsOccur(ms);
    forall k
      ensures k in Keys(r) <==> Occurs(ts, k) && !Occurs(ms, k)
    {
      InKeys(r, k);
      InKeys(t, k);
    }
    GroupingPartition(ts);
    WithoutDistinct(t, m);
  }

  /** The keys of added are the payloads of mine that theirs lacks, each with
      its full group from mine, each key once. */
  lemma AddedPayloads(theirs: SnippetPack, mine: SnippetPack)
    ensures forall k :: k in Keys(Compare(theirs, mine).added) <==>
      Occurs(mine.snippets, k) && !Occurs(theirs.snippets, k)
    ensures forall e :: e in Compare(theirs, mine).added ==> e.1 == WithPayload(mine.snippets, e.0)
    ensures DistinctKeys(Compare(theirs, mine).added)
  {
    SwapArguments(theirs, mine);
    RemovedPayloads(mine, theirs);
  }

  /** added and removed share no key, a payload present in both packs is in
      neither, and every payload of either pack falls in one of the three. */
  lemma AddedRemovedDisjoint(theirs: SnippetPack, mine: SnippetPack)
    ensures forall k :: !(k in Keys(Compare(theirs, mine).added) && k in Keys(Compare(theirs, mine).removed))
    ensures forall k :: Occurs(theirs.snippets, k) && Occurs(mine.snippets, k) ==>
      k !in Keys(Compare(theirs, mine).added) && k !in Keys(Compare(theirs, mine).removed)
    ensures forall k :: Occurs(theirs.snippets, k) || Occurs(mine.snippets, k) ==>
      k in Keys(Compare(theirs, mine).added) || k in Keys(Compare(theirs, mine).removed) ||
      (Occurs(theirs.snippets, k) && Occurs(mine.snippets, k))
  {
    RemovedPayloads(theirs, mine);
    AddedPayloads(theirs, mine);
  }

  /** Every snippet listed in removed (added) is a non-comment snippet of
      theirs (mine) whose payload is its key; so no comment, from either
      pack, is ever reported. */
  lemma ListedSnippets(theirs: SnippetPack, mine: SnippetPack)
    ensures forall e, x :: e in Compare(theirs, mine).removed && x in e.1 ==>
      x in theirs.snippets && !IsComment(x) && x.snippet == e.0
    ensures forall e, x :: e in Compare(theirs, mine).added && x in e.1 ==>
      x in mine.snippets && !IsComment(x) && x.snippet == e.0
  {
    RemovedPayloads(theirs, mine);
    AddedPayloads(theirs, mine);
  }

  /** The lists of removed are non-empty and its keys follow the order in
      which the payloads first occur in theirs. */
  lemma RemovedOrder(theirs: SnippetPack, mine: SnippetPack)
    ensures forall e :: e in Compare(theirs, mine).removed ==> e.1 != []
    ensures forall i, j :: 0 <= i < j < |Compare(theirs, mine).removed| ==>
      FirstBefore(theirs.snippets, Compare(theirs, mine).removed[i].0, Compare(theirs, mine).removed[j].0)
  {
    var ts := theirs.snippets;
    var t, r := GroupSpec(ts), Compare(theirs, mine).removed;
    GroupingPartition(ts);
    FirstPayloadsOrder(ts);
    forall i, j | 0 <= i < j < |r|
      ensures FirstBefore(ts, r[i].0, r[j].0)
    {
      assert Before(t, r[i], r[j]);
      var a, b :| 0 <= a < b < |t| && t[a] == r[i] && t[b] == r[j];
      assert FirstBefore(ts, FirstPayloads(ts)[a], FirstPayloads(ts)[b]);
    }
  }

  /** The lists of added are non-empty and its keys follow the order in which
      the payloads first occur in mine. */
  lemma AddedOrder(theirs: SnippetPack, mine: SnippetPack)
    ensures forall e :: e in Compare(theirs, mine).added ==> e.1 != []
    ensures forall i, j :: 0 <= i < j < |Compare(theirs, mine).added| ==>
      FirstBefore(mine.snippets, Compare(theirs, mine).added[i].0, Compare(theirs, mine).added[j].0)
  {
    SwapArguments(theirs, mine);
    RemovedOrder(mine, theirs);
  }
}
