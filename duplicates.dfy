/** Value-level definitions behind the two operations of the store that look for
    units with the same text: `removeDuplicates`, which deletes a unit whose every
    tuv repeats another unit's, and `consolidateUnits`, which gathers the
    translations of units with the same source segment into one of them. Both
    list (id, text) pairs, sort them by text and scan the runs of equal text. */
module Duplicates {
  import opened Strings
  import opened Lists
  import opened Xml
  import opened StoreModel
  import TmxUtils

  /** The `Pair` the store sorts: a unit id and the plain text of its segment. */
  datatype Pair = Pair(id: Id, text: string)

  /** `makeText`: the plain text of the segment of unit `id` in language `l`, empty
      when the unit has no tuv there. */
  function MakeText(ms: LangMaps, l: Lang, id: Id): string
  {
    if l in ms && id in ms[l] then TmxUtils.TextOnly(Seg(ms[l][id])) else ""
  }

  function Ids(ps: seq<Pair>): (r: seq<Id>)
    ensures |r| == |ps| && forall i :: 0 <= i < |ps| ==> r[i] == ps[i].id
  {
    if ps == [] then [] else [ps[0].id] + Ids(ps[1..])
  }

  // ---------------------------------------------------------------------
  // Listing and sorting the pairs

  /** The pairs of the units among the first `n` of `order` whose text in `l` is not
      empty, in that order. */
  function TextPairs(ms: LangMaps, l: Lang, order: seq<Id>, n: nat): (r: seq<Pair>)
    requires n <= |order|
  {
    if n == 0 then []
    else
      var before := TextPairs(ms, l, order, n - 1);
      var id := order[n - 1];
      if MakeText(ms, l, id) != "" then before + [Pair(id, MakeText(ms, l, id))] else before
  }

  /** The pairs are those of the units among the first `n` with a text in `l`. */
  lemma {:induction false} TextPairsMembers(ms: LangMaps, l: Lang, order: seq<Id>, n: nat)
    requires n <= |order|
    ensures forall p :: p in TextPairs(ms, l, order, n) <==> p.id in order[..n] && p.text == MakeText(ms, l, p.id) && p.text != ""
  {
    if n > 0 {
      TextPairsMembers(ms, l, order, n - 1);
      assert order[..n] == order[..n - 1] + [order[n - 1]];
    }
  }

  /** Units listed once give pairs with distinct ids. */
  lemma {:induction false} TextPairsDistinct(ms: LangMaps, l: Lang, order: seq<Id>, n: nat)
    requires n <= |order| && Distinct(order)
    ensures Distinct(Ids(TextPairs(ms, l, order, n)))
  {
    if n > 0 {
      TextPairsDistinct(ms, l, order, n - 1);
      TextPairsMembers(ms, l, order, n - 1);
      var before := TextPairs(ms, l, order, n - 1);
      var id := order[n - 1];
      if MakeText(ms, l, id) != "" {
        var p := Pair(id, MakeText(ms, l, id));
        forall x | x in Ids(before) ensures x in order[..n - 1] {
          var i :| 0 <= i < |Ids(before)| && Ids(before)[i] == x;
          assert before[i] in before;
        }
        DistinctPrefix(order, n - 1);
        IdsAppend(before, p);
        DistinctSnoc(Ids(before), id);
      }
    }
  }

  lemma IdsAppend(ps: seq<Pair>, p: Pair)
    ensures Ids(ps + [p]) == Ids(ps) + [p.id]
  {
  }

  /** `a`'s text sorts no later than `b`'s. */
  predicate NotAfter(a: Pair, b: Pair)
  {
    !Below(b.text, a.text)
  }

  /** The order `Collections.sort` leaves the pairs in: by text. */
  predicate SortedByText(ps: seq<Pair>)
  {
    forall i, j :: 0 <= i < j < |ps| ==> NotAfter(ps[i], ps[j])
  }

  lemma NotAfterTransitive(a: Pair, b: Pair, c: Pair)
    requires NotAfter(a, b) && NotAfter(b, c)
    ensures NotAfter(a, c)
  {
    if Below(c.text, a.text) {
      if a.text != b.text && b.text != c.text {
        BelowTotal(a.text, b.text);
        BelowTotal(b.text, c.text);
        BelowTransitive(a.text, b.text, c.text);
        BelowAsymmetric(a.text, c.text);
      }
    }
  }

  lemma NotAfterAntisymmetric(a: Pair, b: Pair)
    requires NotAfter(a, b) && NotAfter(b, a)
    ensures a.text == b.text
  {
    if a.text != b.text {
      BelowTotal(a.text, b.text);
    }
  }

  /** Puts `p` before the first pair whose text does not sort before its own. */
  function InsertByText(p: Pair, ps: seq<Pair>): (r: seq<Pair>)
    ensures |r| == |ps| + 1
  {
    if ps == [] || NotAfter(p, ps[0]) then [p] + ps
    else [ps[0]] + InsertByText(p, ps[1..])
  }

  /** Inserting adds `p` and loses nothing. */
  lemma {:induction false} InsertPermutes(p: Pair, ps: seq<Pair>)
    ensures multiset(InsertByText(p, ps)) == multiset(ps) + multiset{p}
  {
    if ps != [] && !NotAfter(p, ps[0]) {
      InsertPermutes(p, ps[1..]);
      assert ps == [ps[0]] + ps[1..];
    }
  }

  lemma {:induction false} InsertSorted(p: Pair, ps: seq<Pair>)
    requires SortedByText(ps)
    ensures SortedByText(InsertByText(p, ps))
    decreases |ps|
  {
    var r := InsertByText(p, ps);
    if ps == [] || NotAfter(p, ps[0]) {
      forall i, j | 0 <= i < j < |r| ensures NotAfter(r[i], r[j]) {
        if i == 0 && j > 1 {
          NotAfterTransitive(p, ps[0], ps[j - 1]);
        }
      }
    } else {
      var rest := InsertByText(p, ps[1..]);
      InsertSorted(p, ps[1..]);
      InsertPermutes(p, ps[1..]);
      BelowAsymmetric(ps[0].text, p.text);
      forall j | 1 <= j < |r| ensures NotAfter(r[0], r[j]) {
        assert r[j] == rest[j - 1];
        assert rest[j - 1] in multiset(ps[1..]) + multiset{p};
        if rest[j - 1] != p {
          assert rest[j - 1] in ps[1..];
        }
      }
    }
  }

  lemma {:induction false} InsertIds(p: Pair, ps: seq<Pair>)
    requires Distinct(Ids(ps)) && p.id !in Ids(ps)
    ensures Distinct(Ids(InsertByText(p, ps)))
    ensures forall x :: x in Ids(InsertByText(p, ps)) <==> x == p.id || x in Ids(ps)
    decreases |ps|
  {
    var r := InsertByText(p, ps);
    if ps == [] || NotAfter(p, ps[0]) {
      assert r == [p] + ps;
      assert Ids(r) == [p.id] + Ids(ps);
      DistinctCons(p.id, Ids(ps));
    } else {
      var rest := InsertByText(p, ps[1..]);
      assert Ids(ps) == [ps[0].id] + Ids(ps[1..]);
      assert Ids(ps)[1..] == Ids(ps[1..]);
      DistinctTail(Ids(ps));
      InsertIds(p, ps[1..]);
      assert r == [ps[0]] + rest && r[1..] == rest;
      assert Ids(r) == [ps[0].id] + Ids(rest);
      DistinctCons(ps[0].id, Ids(rest));
    }
  }

  /** `Collections.sort` on pairs ordered by text: a stable sort. */
  function SortByText(ps: seq<Pair>): (r: seq<Pair>)
    ensures |r| == |ps|
  {
    if ps == [] then [] else InsertByText(ps[0], SortByText(ps[1..]))
  }

  /** The sort is a permutation. */
  lemma {:induction false} SortPermutes(ps: seq<Pair>)
    ensures multiset(SortByText(ps)) == multiset(ps)
  {
    if ps != [] {
      SortPermutes(ps[1..]);
      InsertPermutes(ps[0], SortByText(ps[1..]));
      assert ps == [ps[0]] + ps[1..];
    }
  }

  /** The sort leaves the pairs ordered by text. */
  lemma {:induction false} SortSorted(ps: seq<Pair>)
    ensures SortedByText(SortByText(ps))
  {
    if ps != [] {
      SortSorted(ps[1..]);
      InsertSorted(ps[0], SortByText(ps[1..]));
    }
  }

  /** Sorting keeps the ids, and keeps them distinct. */
  lemma {:induction false} SortKeepsIds(ps: seq<Pair>)
    requires Distinct(Ids(ps))
    ensures Distinct(Ids(SortByText(ps)))
    ensures forall x :: x in Ids(SortByText(ps)) <==> x in Ids(ps)
  {
    if ps != [] {
      assert Ids(ps) == [ps[0].id] + Ids(ps[1..]);
      SortKeepsIds(ps[1..]);
      InsertIds(ps[0], SortByText(ps[1..]));
    }
  }

  // ---------------------------------------------------------------------
  // removeDuplicates: the duplicate test

  /** Units `a` and `b` agree in language `l`: both have a tuv there or neither
      has, and the two tuvs have equal segments. */
  predicate Twin(ms: LangMaps, l: Lang, a: Id, b: Id)
  {
    l in ms ==> (a in ms[l] <==> b in ms[l]) && (a in ms[l] ==> Seg(ms[l][a]) == Seg(ms[l][b]))
  }

  /** The `repeated` test of `removeDuplicates`: `a` and `b` agree in every language. */
  predicate SameProfile(ms: LangMaps, langs: seq<Lang>, a: Id, b: Id)
  {
    forall k :: 0 <= k < |langs| ==> Twin(ms, langs[k], a, b)
  }

  lemma SameProfileTransitive(ms: LangMaps, langs: seq<Lang>, a: Id, b: Id, c: Id)
    requires SameProfile(ms, langs, a, b) && SameProfile(ms, langs, b, c)
    ensures SameProfile(ms, langs, a, c) && SameProfile(ms, langs, c, a)
  {
  }

  /** Units with the same profile show the same text in every language of the set. */
  lemma TwinsShareText(ms: LangMaps, langs: seq<Lang>, a: Id, b: Id, k: nat)
    requires SameProfile(ms, langs, a, b) && k < |langs|
    ensures MakeText(ms, langs[k], a) == MakeText(ms, langs[k], b)
  {
    assert Twin(ms, langs[k], a, b);
  }

  /** Forgetting other units changes neither the text nor the profile of a unit. */
  lemma ForgetKeepsProfile(ms: LangMaps, langs: seq<Lang>, gone: set<Id>, a: Id, b: Id)
    requires a !in gone && b !in gone
    ensures SameProfile(Forget(ms, gone), langs, a, b) == SameProfile(ms, langs, a, b)
    ensures forall l :: MakeText(Forget(ms, gone), l, a) == MakeText(ms, l, a)
  {
    forall k | 0 <= k < |langs| ensures Twin(Forget(ms, gone), langs[k], a, b) == Twin(ms, langs[k], a, b) { }
  }

  /** Pairs `i` to `j` all carry the text of pair `i`. */
  predicate Run(ps: seq<Pair>, i: int, j: int)
  {
    0 <= i <= j < |ps| && forall k :: i <= k <= j ==> ps[k].text == ps[i].text
  }

  /** Pair `j` repeats an earlier pair `i` of its run. */
  predicate EchoOf(ms: LangMaps, langs: seq<Lang>, ps: seq<Pair>, i: int, j: int)
  {
    i < j && Run(ps, i, j) && SameProfile(ms, langs, ps[i].id, ps[j].id)
  }

  /** Pair `j` repeats some earlier pair of its run: the pairs the scan marks. */
  predicate Echo(ms: LangMaps, langs: seq<Lang>, ps: seq<Pair>, j: int)
  {
    exists i :: 0 <= i < j && EchoOf(ms, langs, ps, i, j)
  }

  /** The ids the scan of the first `n` pairs of one language collects in
      `deleteLater`. */
  function Marked(ms: LangMaps, langs: seq<Lang>, ps: seq<Pair>, n: nat): set<Id>
    requires n <= |ps|
  {
    if n == 0 then {}
    else Marked(ms, langs, ps, n - 1) + (if Echo(ms, langs, ps, n - 1) then {ps[n - 1].id} else {})
  }

  /** The ids the whole scan collects. */
  function Echoes(ms: LangMaps, langs: seq<Lang>, ps: seq<Pair>): set<Id>
  {
    Marked(ms, langs, ps, |ps|)
  }

  /** Every collected id is that of a marked pair. */
  lemma {:induction false} MarkedWitness(ms: LangMaps, langs: seq<Lang>, ps: seq<Pair>, n: nat, x: Id) returns (j: nat)
    requires n <= |ps| && x in Marked(ms, langs, ps, n)
    ensures j < n && Echo(ms, langs, ps, j) && ps[j].id == x
  {
    if x in Marked(ms, langs, ps, n - 1) {
      j := MarkedWitness(ms, langs, ps, n - 1, x);
    } else {
      j := n - 1;
    }
  }

  /** With distinct ids, the id of pair `k` is collected by the scan of the first
      `n` pairs exactly when pair `k` is among them and marked. */
  lemma {:induction false} MarkedAt(ms: LangMaps, langs: seq<Lang>, ps: seq<Pair>, n: nat, k: nat)
    requires n <= |ps| && k < |ps| && Distinct(Ids(ps))
    ensures ps[k].id in Marked(ms, langs, ps, n) <==> k < n && Echo(ms, langs, ps, k)
  {
    if n > 0 {
      MarkedAt(ms, langs, ps, n - 1, k);
      if k != n - 1 {
        assert Ids(ps)[k] != Ids(ps)[n - 1];
      }
    }
  }

  /** With distinct ids, the id of pair `k` is collected exactly when pair `k` is marked. */
  lemma EchoesAt(ms: LangMaps, langs: seq<Lang>, ps: seq<Pair>, k: nat)
    requires k < |ps| && Distinct(Ids(ps))
    ensures ps[k].id in Echoes(ms, langs, ps) <==> Echo(ms, langs, ps, k)
  {
    MarkedAt(ms, langs, ps, |ps|, k);
  }

  /** Every marked pair goes back to an unmarked pair `k` of its run with the same profile. */
  lemma {:induction false} UnmarkedOrigin(ms: LangMaps, langs: seq<Lang>, ps: seq<Pair>, j: nat) returns (k: nat)
    requires j < |ps|
    ensures k <= j && !Echo(ms, langs, ps, k) && Run(ps, k, j) && SameProfile(ms, langs, ps[k].id, ps[j].id)
    ensures Echo(ms, langs, ps, j) ==> k < j
    decreases j
  {
    if !Echo(ms, langs, ps, j) {
      k := j;
      assert Run(ps, j, j);
    } else {
      var i :| 0 <= i < j && EchoOf(ms, langs, ps, i, j);
      k := UnmarkedOrigin(ms, langs, ps, i);
      SameProfileTransitive(ms, langs, ps[k].id, ps[i].id, ps[j].id);
      assert Run(ps, k, j);
    }
  }

  /** Soundness of one scan: the id of a marked pair has a twin whose id is not collected. */
  lemma EchoSound(ms: LangMaps, langs: seq<Lang>, ps: seq<Pair>, j: nat) returns (k: nat)
    requires j < |ps| && Distinct(Ids(ps)) && Echo(ms, langs, ps, j)
    ensures k < j && ps[k].id !in Echoes(ms, langs, ps) && ps[k].id != ps[j].id
    ensures SameProfile(ms, langs, ps[k].id, ps[j].id)
  {
    k := UnmarkedOrigin(ms, langs, ps, j);
    assert Ids(ps)[k] != Ids(ps)[j];
    EchoesAt(ms, langs, ps, k);
  }

  /** Completeness of one scan over sorted pairs: of two pairs with equal texts and
      the same profile, the later one is marked. */
  lemma EchoesComplete(ms: LangMaps, langs: seq<Lang>, ps: seq<Pair>, i: nat, j: nat)
    requires SortedByText(ps) && i < j < |ps|
    requires ps[i].text == ps[j].text && SameProfile(ms, langs, ps[i].id, ps[j].id)
    ensures Echo(ms, langs, ps, j)
  {
    forall k | i <= k <= j ensures ps[k].text == ps[i].text {
      if i < k < j {
        NotAfterAntisymmetric(ps[i], ps[k]);
      }
    }
    assert EchoOf(ms, langs, ps, i, j);
  }

  /** The inner loop of the scan for pair `i`, from pair `j` on: it stops at the
      first pair whose text differs and collects the ids of the pairs with the same
      profile as pair `i`. */
  function RunFrom(ms: LangMaps, langs: seq<Lang>, ps: seq<Pair>, i: nat, j: nat): set<Id>
    requires i < |ps|
    decreases |ps| - j
  {
    if j >= |ps| || ps[j].text != ps[i].text then {}
    else (if SameProfile(ms, langs, ps[i].id, ps[j].id) then {ps[j].id} else {}) + RunFrom(ms, langs, ps, i, j + 1)
  }

  /** The outer loop of the scan over the first `n` pairs, each compared with the
      pairs after it. */
  function Scan(ms: LangMaps, langs: seq<Lang>, ps: seq<Pair>, n: nat): set<Id>
    requires n <= |ps|
  {
    if n == 0 then {} else Scan(ms, langs, ps, n - 1) + RunFrom(ms, langs, ps, n - 1, n)
  }

  lemma {:induction false} RunFromWitness(ms: LangMaps, langs: seq<Lang>, ps: seq<Pair>, i: nat, j: nat, x: Id) returns (k: nat)
    requires i < |ps| && x in RunFrom(ms, langs, ps, i, j)
    ensures j <= k < |ps| && ps[k].id == x && SameProfile(ms, langs, ps[i].id, ps[k].id)
    ensures forall t :: j <= t <= k ==> ps[t].text == ps[i].text
    decreases |ps| - j
  {
    if x in RunFrom(ms, langs, ps, i, j + 1) {
      k := RunFromWitness(ms, langs, ps, i, j + 1, x);
    } else {
      k := j;
    }
  }

  lemma {:induction false} RunFromHas(ms: LangMaps, langs: seq<Lang>, ps: seq<Pair>, i: nat, j: nat, k: nat)
    requires i < |ps| && j <= k < |ps| && SameProfile(ms, langs, ps[i].id, ps[k].id)
    requires forall t :: j <= t <= k ==> ps[t].text == ps[i].text
    ensures ps[k].id in RunFrom(ms, langs, ps, i, j)
    decreases k - j
  {
    if j < k {
      RunFromHas(ms, langs, ps, i, j + 1, k);
    }
  }

  /** Every id the scan collects is that of a pair repeating an earlier one of its run. */
  lemma {:induction false} ScanWitness(ms: LangMaps, langs: seq<Lang>, ps: seq<Pair>, n: nat, x: Id) returns (i: nat, k: nat)
    requires n <= |ps| && x in Scan(ms, langs, ps, n)
    ensures i < n && k < |ps| && EchoOf(ms, langs, ps, i, k) && ps[k].id == x
  {
    if x in Scan(ms, langs, ps, n - 1) {
      i, k := ScanWitness(ms, langs, ps, n - 1, x);
    } else {
      i := n - 1;
      k := RunFromWitness(ms, langs, ps, i, n, x);
    }
  }

  lemma {:induction false} ScanHas(ms: LangMaps, langs: seq<Lang>, ps: seq<Pair>, n: nat, i: nat, k: nat)
    requires i < n <= |ps| && k < |ps| && EchoOf(ms, langs, ps, i, k)
    ensures ps[k].id in Scan(ms, langs, ps, n)
  {
    if i < n - 1 {
      ScanHas(ms, langs, ps, n - 1, i, k);
    } else {
      RunFromHas(ms, langs, ps, i, n, k);
    }
  }

  /** A marked pair's id is collected once the scan has passed it. */
  lemma {:induction false} MarkedHas(ms: LangMaps, langs: seq<Lang>, ps: seq<Pair>, n: nat, k: nat)
    requires k < n <= |ps| && Echo(ms, langs, ps, k)
    ensures ps[k].id in Marked(ms, langs, ps, n)
  {
    if k < n - 1 {
      MarkedHas(ms, langs, ps, n - 1, k);
    }
  }

  /** The nested loops collect exactly the ids of the marked pairs. */
  lemma ScanIsEchoes(ms: LangMaps, langs: seq<Lang>, ps: seq<Pair>)
    ensures Scan(ms, langs, ps, |ps|) == Echoes(ms, langs, ps)
  {
    forall x | x in Scan(ms, langs, ps, |ps|) ensures x in Echoes(ms, langs, ps) {
      var i, k := ScanWitness(ms, langs, ps, |ps|, x);
      MarkedHas(ms, langs, ps, |ps|, k);
    }
    forall x | x in Echoes(ms, langs, ps) ensures x in Scan(ms, langs, ps, |ps|) {
      var k := MarkedWitness(ms, langs, ps, |ps|, x);
      var i :| 0 <= i < k && EchoOf(ms, langs, ps, i, k);
      ScanHas(ms, langs, ps, |ps|, i, k);
    }
  }

  /** The sorted pairs of language `l`. */
  function SortedPairs(ms: LangMaps, l: Lang, order: seq<Id>): seq<Pair>
  {
    SortByText(TextPairs(ms, l, order, |order|))
  }

  /** The sorted pairs are the units of the order with a text in `l`, once each. */
  lemma SortedPairsFacts(ms: LangMaps, l: Lang, order: seq<Id>)
    requires Distinct(order)
    ensures var ps := SortedPairs(ms, l, order);
      && SortedByText(ps) && Distinct(Ids(ps))
      && (forall k :: 0 <= k < |ps| ==> ps[k].id in order && ps[k].text == MakeText(ms, l, ps[k].id))
      && (forall x :: x in order && MakeText(ms, l, x) != "" ==> Pair(x, MakeText(ms, l, x)) in ps)
  {
    var raw := TextPairs(ms, l, order, |order|);
    var ps := SortByText(raw);
    assert order[..|order|] == order;
    SortSorted(raw);
    SortPermutes(raw);
    TextPairsDistinct(ms, l, order, |order|);
    TextPairsMembers(ms, l, order, |order|);
    SortKeepsIds(raw);
    forall k | 0 <= k < |ps| ensures ps[k].id in order && ps[k].text == MakeText(ms, l, ps[k].id) {
      assert ps[k] in multiset(raw);
    }
    forall x | x in order && MakeText(ms, l, x) != "" ensures Pair(x, MakeText(ms, l, x)) in ps {
      assert Pair(x, MakeText(ms, l, x)) in multiset(raw);
    }
  }

  /** The units `removeDuplicates` deletes in its round for language `l`. */
  function DuplicatesIn(ms: LangMaps, langs: seq<Lang>, l: Lang, order: seq<Id>): set<Id>
  {
    Echoes(ms, langs, SortedPairs(ms, l, order))
  }

  /** A round deletes only units of the order that keep a twin in it. */
  lemma DuplicatesInSound(ms: LangMaps, langs: seq<Lang>, l: Lang, order: seq<Id>, x: Id) returns (y: Id)
    requires Distinct(order) && x in DuplicatesIn(ms, langs, l, order)
    ensures x in order && y in order && y !in DuplicatesIn(ms, langs, l, order) && y != x
    ensures SameProfile(ms, langs, y, x)
  {
    var ps := SortedPairs(ms, l, order);
    SortedPairsFacts(ms, l, order);
    var j := MarkedWitness(ms, langs, ps, |ps|, x);
    var k := EchoSound(ms, langs, ps, j);
    y := ps[k].id;
  }

  /** After a round for the language at index `n`, no two units left in the order
      with a text in that language are twins. */
  lemma DuplicatesInComplete(ms: LangMaps, langs: seq<Lang>, n: nat, order: seq<Id>, a: Id, b: Id)
    requires n < |langs| && Distinct(order)
    requires a in order && b in order && a != b
    requires a !in DuplicatesIn(ms, langs, langs[n], order) && b !in DuplicatesIn(ms, langs, langs[n], order)
    requires MakeText(ms, langs[n], a) != ""
    ensures !SameProfile(ms, langs, a, b)
  {
    if SameProfile(ms, langs, a, b) {
      var l := langs[n];
      var ps := SortedPairs(ms, l, order);
      TwinsShareText(ms, langs, a, b, n);
      var i := PairAt(ms, l, order, a);
      var j := PairAt(ms, l, order, b);
      if i < j {
        LaterEchoes(ms, langs, ps, i, j);
      } else {
        SameProfileTransitive(ms, langs, b, a, a);
        LaterEchoes(ms, langs, ps, j, i);
      }
    }
  }

  /** Where the pair of a unit with a text in `l` sits among the sorted pairs. */
  lemma PairAt(ms: LangMaps, l: Lang, order: seq<Id>, x: Id) returns (i: nat)
    requires Distinct(order) && x in order && MakeText(ms, l, x) != ""
    ensures var ps := SortedPairs(ms, l, order);
      && SortedByText(ps) && Distinct(Ids(ps))
      && i < |ps| && ps[i] == Pair(x, MakeText(ms, l, x))
  {
    var ps := SortedPairs(ms, l, order);
    SortedPairsFacts(ms, l, order);
    i :| 0 <= i < |ps| && ps[i] == Pair(x, MakeText(ms, l, x));
  }

  /** Of two sorted pairs with equal texts and the same profile, the later one's id is collected. */
  lemma LaterEchoes(ms: LangMaps, langs: seq<Lang>, ps: seq<Pair>, i: nat, j: nat)
    requires SortedByText(ps) && Distinct(Ids(ps)) && i < j < |ps|
    requires ps[i].text == ps[j].text && SameProfile(ms, langs, ps[i].id, ps[j].id)
    ensures ps[j].id in Echoes(ms, langs, ps)
  {
    EchoesComplete(ms, langs, ps, i, j);
    EchoesAt(ms, langs, ps, j);
  }

  // ---------------------------------------------------------------------
  // removeDuplicates: the rounds

  /** A round deletes units of the order only. */
  lemma DuplicatesInListed(ms: LangMaps, langs: seq<Lang>, l: Lang, order: seq<Id>)
    requires Distinct(order)
    ensures forall x :: x in DuplicatesIn(ms, langs, l, order) ==> x in order
  {
    var ps := SortedPairs(ms, l, order);
    SortedPairsFacts(ms, l, order);
    forall x | x in DuplicatesIn(ms, langs, l, order) ensures x in order {
      var j := MarkedWitness(ms, langs, ps, |ps|, x);
    }
  }

  /** The rounds of `removeDuplicates` from the one for `langs[i]` on: every
      language but the last gets a round, which deletes the duplicates it finds in
      the maps and the order the rounds before it left. The result is the maps, the
      order and the set of deleted units. */
  function Deduplicated(ms: LangMaps, langs: seq<Lang>, order: seq<Id>, i: nat): (r: (LangMaps, seq<Id>, set<Id>))
    decreases |langs| - i
  {
    if i + 1 >= |langs| then (ms, order, {})
    else
      var d := DuplicatesIn(ms, langs, langs[i], order);
      var rest := Deduplicated(Forget(ms, d), langs, Without(order, d), i + 1);
      (rest.0, rest.1, d + rest.2)
  }

  /** A round of `removeDuplicates` followed by the rounds after it. */
  lemma DeduplicatedNext(ms: LangMaps, langs: seq<Lang>, order: seq<Id>, i: nat)
    requires i + 1 < |langs|
    ensures var d := DuplicatesIn(ms, langs, langs[i], order);
      var rest := Deduplicated(Forget(ms, d), langs, Without(order, d), i + 1);
      var r := Deduplicated(ms, langs, order, i);
      r.0 == rest.0 && r.1 == rest.1 && r.2 == d + rest.2
  {
  }

  /** What the rounds leave: the maps and the order without the units in the set,
      all of which came from the order. */
  predicate Shaped(ms: LangMaps, order: seq<Id>, r: (LangMaps, seq<Id>, set<Id>))
  {
    && r.0 == Forget(ms, r.2)
    && r.1 == Without(order, r.2)
    && Distinct(r.1)
    && (forall x :: x in r.2 ==> x in order)
  }

  /** The rounds only remove units: what is left is the old maps and order without
      the deleted units, which all came from the order. */
  lemma {:induction false} DeduplicatedShape(ms: LangMaps, langs: seq<Lang>, order: seq<Id>, i: nat)
    requires Distinct(order)
    ensures Shaped(ms, order, Deduplicated(ms, langs, order, i))
    decreases |langs| - i
  {
    if i + 1 >= |langs| {
      ForgetNothing(ms);
      WithoutNothing(order, {});
    } else {
      var d := DuplicatesIn(ms, langs, langs[i], order);
      DuplicatesInListed(ms, langs, langs[i], order);
      WithoutDistinct(order, d);
      DeduplicatedShape(Forget(ms, d), langs, Without(order, d), i + 1);
      var rest := Deduplicated(Forget(ms, d), langs, Without(order, d), i + 1);
      ForgetTwice(ms, d, rest.2);
      WithoutTwice(order, d, rest.2);
    }
  }

  /** The units the rounds leave listed are the old units less the deleted ones. */
  lemma DeduplicatedListed(t: map<Id, Element>, ms: LangMaps, langs: seq<Lang>, order: seq<Id>)
    requires Distinct(order)
    ensures var r := Deduplicated(ms, langs, order, 0); Listed(t, r.1) == Listed(t, order) - r.2
  {
    var r := Deduplicated(ms, langs, order, 0);
    DeduplicatedShape(ms, langs, order, 0);
    ListedWithout(t, order, r.2);
  }

  /** A unit the rounds leave was in the order. */
  lemma LeftListed(ms: LangMaps, langs: seq<Lang>, order: seq<Id>, i: nat, x: Id)
    requires Distinct(order) && x in Deduplicated(ms, langs, order, i).1
    ensures x in order && x !in Deduplicated(ms, langs, order, i).2
  {
    DeduplicatedShape(ms, langs, order, i);
  }

  /** Soundness of `removeDuplicates`: every unit it deletes has a twin, in the
      original maps, that is still in the order. */
  lemma {:induction false} DeduplicatedSound(ms: LangMaps, langs: seq<Lang>, order: seq<Id>, i: nat, x: Id) returns (y: Id)
    requires Distinct(order)
    requires x in order && x !in Deduplicated(ms, langs, order, i).1
    ensures y in Deduplicated(ms, langs, order, i).1 && y != x && SameProfile(ms, langs, y, x)
    decreases |langs| - i
  {
    if i + 1 >= |langs| {
      assert false;
    } else {
      var d := DuplicatesIn(ms, langs, langs[i], order);
      var ms', order' := Forget(ms, d), Without(order, d);
      WithoutDistinct(order, d);
      // the unit x stands for in the later rounds: itself, or the twin it leaves
      var w := x;
      if x in d {
        w := DuplicatesInSound(ms, langs, langs[i], order, x);
      }
      if w in Deduplicated(ms', langs, order', i + 1).1 {
        y := w;
      } else {
        y := DeduplicatedSound(ms', langs, order', i + 1, w);
        LeftListed(ms', langs, order', i + 1, y);
        ForgetKeepsProfile(ms, langs, d, y, w);
        if w != x {
          SameProfileTransitive(ms, langs, y, w, x);
        }
      }
    }
  }

  /** Completeness of `removeDuplicates`: two distinct units the rounds from `i` on
      leave, one of them with a text in the language of round `n`, are not twins. */
  lemma {:induction false} DeduplicatedComplete(ms: LangMaps, langs: seq<Lang>, order: seq<Id>, i: nat, n: nat, a: Id, b: Id)
    requires i <= n && n + 1 < |langs| && Distinct(order)
    requires var r := Deduplicated(ms, langs, order, i); a in r.1 && b in r.1 && a != b
    requires MakeText(ms, langs[n], a) != ""
    ensures !SameProfile(ms, langs, a, b)
    decreases |langs| - i
  {
    var d := DuplicatesIn(ms, langs, langs[i], order);
    var ms', order' := Forget(ms, d), Without(order, d);
    WithoutDistinct(order, d);
    LeftListed(ms', langs, order', i + 1, a);
    LeftListed(ms', langs, order', i + 1, b);
    if n == i {
      DuplicatesInComplete(ms, langs, i, order, a, b);
    } else {
      ForgetKeepsProfile(ms, langs, d, a, b);
      DeduplicatedComplete(ms', langs, order', i + 1, n, a, b);
    }
  }

  // ---------------------------------------------------------------------
  // consolidateUnits

  /** The length of the run of equal texts that starts at pair `i`. */
  function RunLength(ps: seq<Pair>, i: nat): (j: nat)
    requires i < |ps|
    ensures 1 <= j <= |ps| - i
    ensures forall k :: i <= k < i + j ==> ps[k].text == ps[i].text
    ensures i + j < |ps| ==> ps[i + j].text != ps[i].text
    decreases |ps| - i
  {
    if i + 1 < |ps| && ps[i + 1].text == ps[i].text then 1 + RunLength(ps, i + 1) else 1
  }

  /** In one language other than `src`, unit `into` takes the tuv of unit `from`
      when it has none and `from` has one; `from` loses it. */
  function MoveIn(m: map<Id, Element>, l: Lang, src: Lang, into: Id, from: Id): map<Id, Element>
  {
    if l != src && into !in m && from in m then m[into := m[from]] - {from} else m
  }

  /** `MoveIn` in every language of `langs`. */
  function Absorb(ms: LangMaps, langs: seq<Lang>, src: Lang, into: Id, from: Id): (r: LangMaps)
    ensures r.Keys == ms.Keys
  {
    map l | l in ms :: if l in langs then MoveIn(ms[l], l, src, into, from) else ms[l]
  }

  /** `MoveIn` in the map of language `l`, when there is one. */
  function MoveAt(ms: LangMaps, l: Lang, src: Lang, into: Id, from: Id): (r: LangMaps)
  {
    if l in ms then ms[l := MoveIn(ms[l], l, src, into, from)] else ms
  }

  /** The loop over the first `n` languages of `langs`, one language at a time. */
  function MoveEach(ms: LangMaps, langs: seq<Lang>, n: nat, src: Lang, into: Id, from: Id): (r: LangMaps)
    requires n <= |langs|
  {
    if n == 0 then ms else MoveAt(MoveEach(ms, langs, n - 1, src, into, from), langs[n - 1], src, into, from)
  }

  /** The loop over the language set, one language further. */
  lemma MoveEachNext(ms: LangMaps, langs: seq<Lang>, t: nat, src: Lang, into: Id, from: Id, r: LangMaps, m: map<Id, Element>)
    requires t < |langs| && r == MoveEach(ms, langs, t, src, into, from) && langs[t] in r
    requires m == MoveIn(r[langs[t]], langs[t], src, into, from)
    ensures r[langs[t] := m] == MoveEach(ms, langs, t + 1, src, into, from)
  {
  }

  /** Moving twice in one language is moving once. */
  lemma MoveInTwice(m: map<Id, Element>, l: Lang, src: Lang, into: Id, from: Id)
    ensures MoveIn(MoveIn(m, l, src, into, from), l, src, into, from) == MoveIn(m, l, src, into, from)
  {
  }

  lemma {:induction false} MoveEachPrefix(ms: LangMaps, langs: seq<Lang>, n: nat, src: Lang, into: Id, from: Id)
    requires n <= |langs|
    ensures forall l :: l in MoveEach(ms, langs, n, src, into, from) <==> l in ms
    ensures forall l :: l in ms ==>
      MoveEach(ms, langs, n, src, into, from)[l] == if l in langs[..n] then MoveIn(ms[l], l, src, into, from) else ms[l]
  {
    if n > 0 {
      MoveEachPrefix(ms, langs, n - 1, src, into, from);
      assert langs[..n] == langs[..n - 1] + [langs[n - 1]];
      var l := langs[n - 1];
      if l in ms {
        MoveInTwice(ms[l], l, src, into, from);
      }
    }
  }

  /** The loop over the whole language set is `Absorb`. */
  lemma MoveEachIsAbsorb(ms: LangMaps, langs: seq<Lang>, src: Lang, into: Id, from: Id)
    ensures MoveEach(ms, langs, |langs|, src, into, from) == Absorb(ms, langs, src, into, from)
  {
    MoveEachPrefix(ms, langs, |langs|, src, into, from);
    assert langs[..|langs|] == langs;
  }

  /** In a language it works on, `into` ends up with a tuv when either unit had
      one, and `from` keeps its tuv only when `into` already had one; every other
      unit keeps its tuv. */
  lemma AbsorbMoves(ms: LangMaps, langs: seq<Lang>, src: Lang, into: Id, from: Id, l: Lang)
    requires l in ms && l in langs && l != src && into != from
    ensures var r := Absorb(ms, langs, src, into, from)[l];
      && (into in r <==> into in ms[l] || from in ms[l])
      && (into in r ==> r[into] == if into in ms[l] then ms[l][into] else ms[l][from])
      && (from in r <==> from in ms[l] && into in ms[l])
      && (forall y :: y != into && y != from ==> (y in r <==> y in ms[l]) && (y in r ==> r[y] == ms[l][y]))
  {
  }

  /** `r` is `ms` with tuvs moved between units: the same languages, the same
      number of tuvs in each, and the map of `src` untouched. */
  predicate Reshuffled(r: LangMaps, ms: LangMaps, src: Lang)
  {
    && r.Keys == ms.Keys
    && (forall l :: l in ms ==> |r[l]| == |ms[l]|)
    && (src in ms ==> r[src] == ms[src])
  }

  lemma ReshuffledTransitive(a: LangMaps, b: LangMaps, c: LangMaps, src: Lang)
    requires Reshuffled(a, b, src) && Reshuffled(b, c, src)
    ensures Reshuffled(a, c, src)
  {
  }

  /** Absorbing moves tuvs and never adds or drops one, and leaves the source
      language alone. */
  lemma AbsorbReshuffles(ms: LangMaps, langs: seq<Lang>, src: Lang, into: Id, from: Id)
    ensures Reshuffled(Absorb(ms, langs, src, into, from), ms, src)
  {
    forall l | l in ms ensures |Absorb(ms, langs, src, into, from)[l]| == |ms[l]| {
      var m := ms[l];
      if l in langs && l != src && into !in m && from in m {
        var m' := m[into := m[from]];
        assert m'.Keys == m.Keys + {into};
        assert |m'.Keys| == |m.Keys| + 1;
        assert (m' - {from}).Keys == m'.Keys - {from};
      }
    }
  }

  /** One step of the inner loop: the later pair `i + k` of the run gives its
      missing tuvs to pair `i` when their segments in `seg`, the map of the
      source language, are equal. */
  function AbsorbStep(ms: LangMaps, langs: seq<Lang>, src: Lang, seg: map<Id, Element>, ps: seq<Pair>, i: nat, k: nat): LangMaps
    requires i < |ps| && i + k < |ps|
    requires ps[i].id in seg && ps[i + k].id in seg
  {
    if Seg(seg[ps[i].id]) == Seg(seg[ps[i + k].id]) then Absorb(ms, langs, src, ps[i].id, ps[i + k].id) else ms
  }

  /** The inner loop over the run of pair `i`, from its later pair `i + k` on. */
  function AbsorbRun(ms: LangMaps, langs: seq<Lang>, src: Lang, seg: map<Id, Element>, ps: seq<Pair>, i: nat, k: nat): LangMaps
    requires i < |ps| && 1 <= k <= RunLength(ps, i)
    requires forall x :: x in ps ==> x.id in seg
    decreases RunLength(ps, i) - k
  {
    if k == RunLength(ps, i) then ms
    else
      assert ps[i] in ps && ps[i + k] in ps;
      AbsorbRun(AbsorbStep(ms, langs, src, seg, ps, i, k), langs, src, seg, ps, i, k + 1)
  }

  /** The inner loop, one pair further. */
  lemma AbsorbRunNext(ms: LangMaps, langs: seq<Lang>, src: Lang, seg: map<Id, Element>, ps: seq<Pair>, i: nat, k: nat)
    requires i < |ps| && 1 <= k < RunLength(ps, i)
    requires forall x :: x in ps ==> x.id in seg
    ensures ps[i].id in seg && ps[i + k].id in seg
    ensures AbsorbRun(ms, langs, src, seg, ps, i, k) == AbsorbRun(AbsorbStep(ms, langs, src, seg, ps, i, k), langs, src, seg, ps, i, k + 1)
  {
    assert ps[i] in ps && ps[i + k] in ps;
  }

  /** The inner loop only moves tuvs. */
  lemma {:induction false} AbsorbRunReshuffles(ms: LangMaps, langs: seq<Lang>, src: Lang, seg: map<Id, Element>, ps: seq<Pair>, i: nat, k: nat)
    requires i < |ps| && 1 <= k <= RunLength(ps, i)
    requires forall x :: x in ps ==> x.id in seg
    ensures Reshuffled(AbsorbRun(ms, langs, src, seg, ps, i, k), ms, src)
    decreases RunLength(ps, i) - k
  {
    if k < RunLength(ps, i) {
      assert ps[i] in ps && ps[i + k] in ps;
      var ms' := AbsorbStep(ms, langs, src, seg, ps, i, k);
      AbsorbReshuffles(ms, langs, src, ps[i].id, ps[i + k].id);
      AbsorbRunReshuffles(ms', langs, src, seg, ps, i, k + 1);
      ReshuffledTransitive(AbsorbRun(ms', langs, src, seg, ps, i, k + 1), ms', ms, src);
    }
  }

  /** The outer loop from pair `i`: one run at a time. */
  function Consolidated(ms: LangMaps, langs: seq<Lang>, src: Lang, seg: map<Id, Element>, ps: seq<Pair>, i: nat): LangMaps
    requires forall x :: x in ps ==> x.id in seg
    decreases |ps| - i
  {
    if i + 1 >= |ps| then ms
    else Consolidated(AbsorbRun(ms, langs, src, seg, ps, i, 1), langs, src, seg, ps, i + RunLength(ps, i))
  }

  /** The outer loop, one run further: what is left to do after the run of pair
      `i` is the rest of the loop from the pair after that run. */
  lemma ConsolidatedNext(ms: LangMaps, langs: seq<Lang>, src: Lang, seg: map<Id, Element>, ps: seq<Pair>, i: nat, after: LangMaps, k: nat)
    requires (forall x :: x in ps ==> x.id in seg) && i + 1 < |ps|
    requires after == AbsorbRun(ms, langs, src, seg, ps, i, 1) && k == i + RunLength(ps, i)
    ensures Consolidated(ms, langs, src, seg, ps, i) == Consolidated(after, langs, src, seg, ps, k)
  {
  }

  /** The outer loop only moves tuvs. */
  lemma {:induction false} ConsolidatedReshuffles(ms: LangMaps, langs: seq<Lang>, src: Lang, seg: map<Id, Element>, ps: seq<Pair>, i: nat)
    requires forall x :: x in ps ==> x.id in seg
    ensures Reshuffled(Consolidated(ms, langs, src, seg, ps, i), ms, src)
    decreases |ps| - i
  {
    if i + 1 < |ps| {
      var ms' := AbsorbRun(ms, langs, src, seg, ps, i, 1);
      AbsorbRunReshuffles(ms, langs, src, seg, ps, i, 1);
      ConsolidatedReshuffles(ms', langs, src, seg, ps, i + RunLength(ps, i));
      ReshuffledTransitive(Consolidated(ms', langs, src, seg, ps, i + RunLength(ps, i)), ms', ms, src);
    }
  }

  /** Every sorted pair is a unit with a tuv in the language of the pairs. */
  lemma PairsInSource(ms: LangMaps, l: Lang, order: seq<Id>)
    ensures forall x :: x in SortedPairs(ms, l, order) ==> l in ms && x.id in ms[l]
  {
    var raw := TextPairs(ms, l, order, |order|);
    SortPermutes(raw);
    TextPairsMembers(ms, l, order, |order|);
    forall x | x in SortedPairs(ms, l, order) ensures l in ms && x.id in ms[l] {
      assert x in multiset(raw);
      assert MakeText(ms, l, x.id) != "";
    }
  }

  /** The scan of `consolidateUnits` over the sorted pairs of the source language. */
  function ConsolidatePass(ms: LangMaps, langs: seq<Lang>, src: Lang, order: seq<Id>): LangMaps
    requires src in ms
  {
    PairsInSource(ms, src, order);
    Consolidated(ms, langs, src, ms[src], SortedPairs(ms, src, order), 0)
  }

  /** The scan keeps the languages, the number of tuvs of each and the source map:
      no translation is lost or copied. */
  lemma ConsolidatePassReshuffles(ms: LangMaps, langs: seq<Lang>, src: Lang, order: seq<Id>)
    requires src in ms
    ensures Reshuffled(ConsolidatePass(ms, langs, src, order), ms, src)
  {
    PairsInSource(ms, src, order);
    ConsolidatedReshuffles(ms, langs, src, ms[src], SortedPairs(ms, src, order), 0);
  }

  /** Moving a tuv to a stored unit keeps the store consistent. */
  lemma AbsorbKeepsConsistent(langs: seq<Lang>, ms: LangMaps, units: set<Id>, order: seq<Id>, ls: seq<Lang>, src: Lang, into: Id, from: Id)
    requires Consistent(langs, ms, units, order) && into in units
    ensures Consistent(langs, Absorb(ms, ls, src, into, from), units, order)
  {
  }

  /** The inner loop of `consolidateUnits` keeps the store consistent: each unit
      that takes tuvs is a stored one. */
  lemma {:induction false} AbsorbRunKeepsConsistent(langs: seq<Lang>, ms: LangMaps, units: set<Id>, order: seq<Id>,
                                                    src: Lang, seg: map<Id, Element>, ps: seq<Pair>, i: nat, k: nat)
    requires Consistent(langs, ms, units, order) && seg.Keys <= units
    requires i < |ps| && 1 <= k <= RunLength(ps, i) && forall x :: x in ps ==> x.id in seg
    ensures Consistent(langs, AbsorbRun(ms, langs, src, seg, ps, i, k), units, order)
    decreases RunLength(ps, i) - k
  {
    if k < RunLength(ps, i) {
      assert ps[i] in ps && ps[i + k] in ps;
      AbsorbKeepsConsistent(langs, ms, units, order, langs, src, ps[i].id, ps[i + k].id);
      AbsorbRunKeepsConsistent(langs, AbsorbStep(ms, langs, src, seg, ps, i, k), units, order, src, seg, ps, i, k + 1);
    }
  }

  /** The outer loop of `consolidateUnits` keeps the store consistent. */
  lemma {:induction false} ConsolidatedKeepsConsistent(langs: seq<Lang>, ms: LangMaps, units: set<Id>, order: seq<Id>,
                                                       src: Lang, seg: map<Id, Element>, ps: seq<Pair>, i: nat)
    requires Consistent(langs, ms, units, order) && seg.Keys <= units
    requires forall x :: x in ps ==> x.id in seg
    ensures Consistent(langs, Consolidated(ms, langs, src, seg, ps, i), units, order)
    decreases |ps| - i
  {
    if i + 1 < |ps| {
      AbsorbRunKeepsConsistent(langs, ms, units, order, src, seg, ps, i, 1);
      ConsolidatedKeepsConsistent(langs, AbsorbRun(ms, langs, src, seg, ps, i, 1), units, order, src, seg, ps, i + RunLength(ps, i));
    }
  }
}
