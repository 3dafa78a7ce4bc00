/** Value-level definitions behind the in-memory TMX store: how a `tu` is split
    into per-language tuvs, pagination, the same-as-source and duplicate tests,
    and the tab-delimited export lines. */
module StoreModel {
  import opened Wrappers
  import opened Strings
  import opened Xml
  import opened Lists
  import opened Delimited
  import TmxUtils

  type Id = string
  type Lang = string

  /** One id -> tuv map per language code. */
  type LangMaps = map<Lang, map<Id, Element>>

  /** The invariant of the store over its language set, language maps, unit ids
      and order: the language set is sorted and names exactly the languages that
      have a map; the order lists every unit once; every stored tuv belongs to a unit. */
  ghost predicate Consistent(langs: seq<Lang>, ms: LangMaps, units: set<Id>, order: seq<Id>)
  {
    && Sorted(langs)
    && (forall l :: l in ms <==> l in langs)
    && Distinct(order)
    && (forall id :: id in units <==> id in order)
    && (forall l, id :: l in ms && id in ms[l] ==> id in units)
  }

  /** A sorted language set lists each language once. */
  lemma SortedLanguagesDistinct(langs: seq<Lang>)
    requires Sorted(langs)
    ensures Distinct(langs)
  {
    forall i, j | 0 <= i < j < |langs| ensures langs[i] != langs[j] {
      SortedDistinct(langs, i, j);
    }
  }

  // ---------------------------------------------------------------------
  // storeTU

  /** The language a tuv declares: `xml:lang`, or the older `lang` when that is empty. */
  function LangOf(tuv: Element): Lang
  {
    var code := GetAttribute(tuv, "xml:lang", "");
    if code != "" then code else GetAttribute(tuv, "lang", "")
  }

  /** The tuv as it is stored: one that declares its language with `lang`
      gets an `xml:lang` attribute instead. */
  function Normalized(tuv: Element): (r: Element)
    requires LangOf(tuv) != ""
    ensures Tagged(r, LangOf(tuv))
    ensures r.name == tuv.name && r.content == tuv.content
  {
    if GetAttribute(tuv, "xml:lang", "") != "" then tuv
    else RemoveAttribute(SetAttribute(tuv, "xml:lang", LangOf(tuv)), "lang")
  }

  /** Some tuv among the first `n` declares a language. */
  predicate HasLang(tuvs: seq<Element>, n: nat)
    requires n <= |tuvs|
  {
    n > 0 && (HasLang(tuvs, n - 1) || Declares(tuvs[n - 1]))
  }

  /** How many of the first `n` tuvs declare a language. */
  function FiledCount(tuvs: seq<Element>, n: nat): nat
    requires n <= |tuvs|
  {
    if n == 0 then 0 else FiledCount(tuvs, n - 1) + (if Declares(tuvs[n - 1]) then 1 else 0)
  }

  /** Some tuv declares a language exactly when at least one is filed. */
  lemma {:induction false} HasLangCount(tuvs: seq<Element>, n: nat)
    requires n <= |tuvs|
    ensures HasLang(tuvs, n) <==> FiledCount(tuvs, n) > 0
  {
    if n > 0 {
      HasLangCount(tuvs, n - 1);
    }
  }

  /** The tuv declares a language, and so is filed. */
  predicate Declares(tuv: Element)
  {
    LangOf(tuv) != ""
  }

  lemma {:induction false} HasLangExists(tuvs: seq<Element>, n: nat)
    requires n <= |tuvs|
    ensures HasLang(tuvs, n) <==> exists j :: 0 <= j < n && LangOf(tuvs[j]) != ""
  {
    if n > 0 {
      HasLangExists(tuvs, n - 1);
    }
  }

  /** The language set once the first `n` tuvs of a unit are stored. */
  function AddLangs(langs: seq<Lang>, tuvs: seq<Element>, n: nat): (r: seq<Lang>)
    requires Sorted(langs) && n <= |tuvs|
    ensures Sorted(r)
  {
    if n == 0 then langs else AddLang(AddLangs(langs, tuvs, n - 1), tuvs[n - 1])
  }

  /** The language set once one more tuv is stored: its language, when it declares
      one that is new, is inserted in order. */
  function AddLang(langs: seq<Lang>, tuv: Element): (r: seq<Lang>)
    requires Sorted(langs)
    ensures Sorted(r)
  {
    var l := LangOf(tuv);
    if l == "" || l in langs then langs else Insert(langs, l)
  }

  /** The language maps once the first `n` tuvs of unit `id` are stored, in list
      order: a new language gets an empty map first, and a later tuv of a language
      replaces an earlier one. */
  function AddTuvs(ms: LangMaps, tuvs: seq<Element>, n: nat, id: Id): LangMaps
    requires n <= |tuvs|
  {
    if n == 0 then ms else AddTuv(AddTuvs(ms, tuvs, n - 1, id), tuvs[n - 1], id)
  }

  /** The language maps once one more tuv of unit `id` is stored. */
  function AddTuv(ms: LangMaps, tuv: Element, id: Id): LangMaps
  {
    var l := LangOf(tuv);
    if l == "" then ms
    else
      var withLang := if l in ms then ms else ms[l := map[]];
      withLang[l := withLang[l][id := Normalized(tuv)]]
  }

  /** No language map holds `id`. */
  predicate Unused(ms: LangMaps, id: Id)
  {
    forall l :: l in ms ==> id !in ms[l]
  }

  /** Storing the tuvs of a unit keeps the language set in step with the maps. */
  lemma {:induction false} StoreLanguages(langs: seq<Lang>, ms: LangMaps, tuvs: seq<Element>, n: nat, id: Id)
    requires Sorted(langs) && (forall l :: l in ms <==> l in langs) && n <= |tuvs|
    ensures forall l :: l in AddTuvs(ms, tuvs, n, id) <==> l in AddLangs(langs, tuvs, n)
  {
    if n > 0 {
      StoreLanguages(langs, ms, tuvs, n - 1, id);
    }
  }

  /** The languages after storing are those of the store plus those the tuvs declare. */
  lemma {:induction false} StoreDeclared(ms: LangMaps, tuvs: seq<Element>, n: nat, id: Id)
    requires n <= |tuvs|
    ensures forall l :: l in AddTuvs(ms, tuvs, n, id) <==> l in ms || exists j :: 0 <= j < n && LangOf(tuvs[j]) == l != ""
  {
    if n > 0 {
      StoreDeclared(ms, tuvs, n - 1, id);
    }
  }

  /** The tuv names language `l` in its `xml:lang` attribute. */
  predicate Tagged(tuv: Element, l: Lang)
  {
    GetAttribute(tuv, "xml:lang", "") == l
  }

  /** Every tuv stored for `id` is filed under the language its `xml:lang` names. */
  lemma {:induction false} StoreTagged(ms: LangMaps, tuvs: seq<Element>, n: nat, id: Id)
    requires Unused(ms, id) && n <= |tuvs|
    ensures forall l :: l in AddTuvs(ms, tuvs, n, id) && id in AddTuvs(ms, tuvs, n, id)[l]
                        ==> Tagged(AddTuvs(ms, tuvs, n, id)[l][id], l)
  {
    if n > 0 {
      StoreTagged(ms, tuvs, n - 1, id);
      var l := LangOf(tuvs[n - 1]);
      if l != "" {
        var before := AddTuvs(ms, tuvs, n - 1, id);
        var withLang := if l in before then before else before[l := map[]];
        assert AddTuvs(ms, tuvs, n, id) == withLang[l := withLang[l][id := Normalized(tuvs[n - 1])]];
        assert Tagged(Normalized(tuvs[n - 1]), l);
      }
    }
  }

  /** Storing the tuvs of `id` leaves the entries of every other id alone, and a
      language met for the first time holds `id` alone. */
  lemma {:induction false} StoreOthers(ms: LangMaps, tuvs: seq<Element>, n: nat, id: Id)
    requires n <= |tuvs|
    ensures var r := AddTuvs(ms, tuvs, n, id);
      && (forall l :: l in ms ==> l in r)
      && (forall l, x :: l in ms && x != id ==> (x in r[l] <==> x in ms[l]))
      && (forall l, x :: l in ms && x != id && x in ms[l] ==> r[l][x] == ms[l][x])
      && (forall l :: l in r && l !in ms ==> r[l].Keys == {id})
  {
    if n > 0 {
      StoreOthers(ms, tuvs, n - 1, id);
      AddTuvOthers(AddTuvs(ms, tuvs, n - 1, id), tuvs[n - 1], id);
    }
  }

  /** Storing one tuv of `id` leaves the entries of every other id alone. */
  lemma AddTuvOthers(ms: LangMaps, tuv: Element, id: Id)
    ensures var r := AddTuv(ms, tuv, id);
      && (forall l :: l in ms ==> l in r)
      && (forall l, x :: l in ms && x != id ==> (x in r[l] <==> x in ms[l]))
      && (forall l, x :: l in ms && x != id && x in ms[l] ==> r[l][x] == ms[l][x])
      && (forall l :: l in r && l !in ms ==> r[l].Keys == {id})
  {
  }

  /** A unit ends up in some language map exactly when one of its tuvs declares a language. */
  lemma {:induction false} StoreKept(ms: LangMaps, tuvs: seq<Element>, n: nat, id: Id)
    requires Unused(ms, id) && n <= |tuvs|
    ensures !Unused(AddTuvs(ms, tuvs, n, id), id) <==> HasLang(tuvs, n)
  {
    if n > 0 {
      StoreKept(ms, tuvs, n - 1, id);
      var l := LangOf(tuvs[n - 1]);
      if l != "" {
        assert id in AddTuvs(ms, tuvs, n, id)[l];
      }
    }
  }

  /** A unit that joins the table and the end of the order keeps the store consistent. */
  lemma AddUnitKeepsConsistent(langs: seq<Lang>, ms: LangMaps, units: set<Id>, order: seq<Id>, id: Id)
    requires Consistent(langs, ms, units, order) && id !in units
    ensures Consistent(langs, ms, units + {id}, order + [id])
  {
    DistinctSnoc(order, id);
  }

  /** The `tu` that `insertUnit` creates: no content, and the attributes `tuid`,
      `creationdate`, `creationid`, `creationtool` and `creationtoolversion`. */
  function NewUnit(id: Id, date: string, user: string, tool: string, version: string): (r: Element)
    ensures r.name == "tu" && r.content == []
    ensures GetAttribute(r, "tuid", "") == id
    ensures GetAttribute(r, "creationdate", "") == date
    ensures GetAttribute(r, "creationid", "") == user
    ensures GetAttribute(r, "creationtool", "") == tool
    ensures GetAttribute(r, "creationtoolversion", "") == version
  {
    var tu := SetAttribute(Element("tu", [], []), "tuid", id);
    var tu := SetAttribute(tu, "creationdate", date);
    var tu := SetAttribute(tu, "creationid", user);
    var tu := SetAttribute(tu, "creationtool", tool);
    SetAttribute(tu, "creationtoolversion", version)
  }

  // ---------------------------------------------------------------------
  // delete

  /** The maps once every id of `ids` is removed from every language. */
  function Forget(ms: LangMaps, ids: set<Id>): (r: LangMaps)
    ensures r.Keys == ms.Keys
    ensures forall l :: l in ms ==> r[l].Keys == ms[l].Keys - ids
    ensures forall l, x :: l in ms && x in r[l] ==> r[l][x] == ms[l][x]
  {
    map l | l in ms :: ms[l] - ids
  }

  lemma ForgetTwice(ms: LangMaps, a: set<Id>, b: set<Id>)
    ensures Forget(Forget(ms, a), b) == Forget(ms, a + b)
  {
    var r := Forget(Forget(ms, a), b);
    forall l | l in ms ensures r[l] == Forget(ms, a + b)[l] {
      assert r[l].Keys == Forget(ms, a + b)[l].Keys;
    }
  }

  /** Removing two key sets from a map, one after the other, removes their union. */
  lemma MinusTwice<K, V>(m: map<K, V>, a: set<K>, b: set<K>)
    ensures m - a - b == m - (a + b)
  {
  }

  /** The units of `t` that are listed in `order`. */
  function Listed(t: map<Id, Element>, order: seq<Id>): (r: map<Id, Element>)
  {
    map id | id in t && id in order :: t[id]
  }

  /** Leaving ids out of the order leaves their units out of the listed ones. */
  lemma ListedWithout(t: map<Id, Element>, order: seq<Id>, ids: set<Id>)
    ensures Listed(t, Without(order, ids)) == Listed(t, order) - ids
  {
  }

  /** When the order lists exactly the units of `t`, they are all listed. */
  lemma ListedAll(t: map<Id, Element>, order: seq<Id>)
    requires forall id :: id in t <==> id in order
    ensures Listed(t, order) == t
  {
  }

  lemma ForgetNothing(ms: LangMaps)
    ensures Forget(ms, {}) == ms
  {
    forall l | l in ms ensures Forget(ms, {})[l] == ms[l] {
      assert Forget(ms, {})[l].Keys == ms[l].Keys;
    }
  }

  /** The loop of `delete`: the unit leaves the maps of the first `n` languages. */
  function ForgetEach(ms: LangMaps, langs: seq<Lang>, n: nat, id: Id): (r: LangMaps)
    requires n <= |langs|
    ensures r.Keys == ms.Keys
  {
    if n == 0 then ms else ForgetIn(ForgetEach(ms, langs, n - 1, id), langs[n - 1], id)
  }

  /** The unit leaves the map of one language. */
  function ForgetIn(ms: LangMaps, l: Lang, id: Id): (r: LangMaps)
    ensures r.Keys == ms.Keys
  {
    if l in ms then ms[l := ms[l] - {id}] else ms
  }

  lemma {:induction false} ForgetEachPrefix(ms: LangMaps, langs: seq<Lang>, n: nat, id: Id)
    requires n <= |langs|
    ensures forall l :: l in ms ==>
      ForgetEach(ms, langs, n, id)[l] == if l in langs[..n] then ms[l] - {id} else ms[l]
  {
    if n > 0 {
      ForgetEachPrefix(ms, langs, n - 1, id);
      assert langs[..n] == langs[..n - 1] + [langs[n - 1]];
    }
  }

  /** Walking every language forgets the unit everywhere. */
  lemma ForgetEachIsForget(ms: LangMaps, langs: seq<Lang>, id: Id)
    requires forall l :: l in ms ==> l in langs
    ensures ForgetEach(ms, langs, |langs|, id) == Forget(ms, {id})
  {
    ForgetEachPrefix(ms, langs, |langs|, id);
    assert langs[..|langs|] == langs;
  }

  /** `storeTU` keeps the store consistent: the unit joins the table and the end of
      the order when one of its tuvs was filed, and nothing joins them otherwise. */
  lemma StoreKeepsConsistent(langs: seq<Lang>, ms: LangMaps, units: set<Id>, order: seq<Id>, tuvs: seq<Element>, id: Id)
    requires Consistent(langs, ms, units, order) && id !in units
    ensures var langs' := AddLangs(langs, tuvs, |tuvs|); var ms' := AddTuvs(ms, tuvs, |tuvs|, id);
      if HasLang(tuvs, |tuvs|) then Consistent(langs', ms', units + {id}, order + [id])
      else Consistent(langs', ms', units, order)
  {
    assert Unused(ms, id);
    StoreLanguages(langs, ms, tuvs, |tuvs|, id);
    StoreOthers(ms, tuvs, |tuvs|, id);
    StoreKept(ms, tuvs, |tuvs|, id);
    if HasLang(tuvs, |tuvs|) {
      assert Distinct(order + [id]) by {
        forall i, j | 0 <= i < j < |order| + 1 ensures (order + [id])[i] != (order + [id])[j] {
          if j == |order| { assert order[i] in order; }
        }
      }
    }
  }

  /** Removing units from the maps, the table and the order keeps the store consistent. */
  lemma DeleteKeepsConsistent(langs: seq<Lang>, ms: LangMaps, units: set<Id>, order: seq<Id>, ids: set<Id>)
    requires Consistent(langs, ms, units, order)
    ensures Consistent(langs, Forget(ms, ids), units - ids, Without(order, ids))
  {
    WithoutDistinct(order, ids);
  }

  // ---------------------------------------------------------------------
  // getUnits

  function Min(a: int, b: int): int
  {
    if a < b then a else b
  }

  /** The pagination at the end of `getUnits`: a short result is returned whole,
      otherwise the page from `start`, cut at the end of the result. `subList` fails
      when the page starts past the end. */
  function Page<T>(rows: seq<T>, start: nat, count: nat): (r: Result<seq<T>>)
    ensures r.Err? <==> count <= |rows| < start
    ensures r.Ok? ==> |r.value| <= count
    ensures |rows| < count ==> r == Ok(rows)
    ensures count <= |rows| && start <= |rows| ==> r == Ok(rows[start..Min(start + count, |rows|)])
  {
    if |rows| < count then Ok(rows)
    else if |rows| < start + count then
      if start <= |rows| then Ok(rows[start..|rows|]) else Err("fromIndex > toIndex")
    else Ok(rows[start..start + count])
  }

  /** One row of the grid: its 1-based position, the unit id and the text shown for
      each language. */
  datatype Row = Row(index: nat, id: Id, texts: map<Lang, string>)

  /** `getTuv`: the rendered `seg` of the tuv of `id` in `l`, or "" when the unit has
      no tuv in that language or the tuv has no `seg`. */
  function Display(ms: LangMaps, l: Lang, id: Id, render: Element -> string): string
  {
    if l in ms && id in ms[l] then
      match GetChild(ms[l][id], "seg")
      case Some(seg) => render(seg)
      case None => ""
    else ""
  }

  /** The text map of one row, filled for the first `n` languages. */
  function Texts(ms: LangMaps, langs: seq<Lang>, n: nat, id: Id, render: Element -> string): map<Lang, string>
    requires n <= |langs|
  {
    if n == 0 then map[] else Texts(ms, langs, n - 1, id, render)[langs[n - 1] := Display(ms, langs[n - 1], id, render)]
  }

  lemma {:induction false} TextsPrefix(ms: LangMaps, langs: seq<Lang>, n: nat, id: Id, render: Element -> string)
    requires n <= |langs|
    ensures forall l :: l in Texts(ms, langs, n, id, render) <==> l in langs[..n]
    ensures forall l :: l in langs[..n] ==> Texts(ms, langs, n, id, render)[l] == Display(ms, l, id, render)
  {
    if n > 0 {
      TextsPrefix(ms, langs, n - 1, id, render);
      assert langs[..n] == langs[..n - 1] + [langs[n - 1]];
    }
  }

  /** A row shows every language of the store, each with the text of its tuv. */
  lemma TextsComplete(ms: LangMaps, langs: seq<Lang>, id: Id, render: Element -> string)
    ensures forall l :: l in Texts(ms, langs, |langs|, id, render) <==> l in langs
    ensures forall l :: l in langs ==> Texts(ms, langs, |langs|, id, render)[l] == Display(ms, l, id, render)
  {
    TextsPrefix(ms, langs, |langs|, id, render);
    assert langs[..|langs|] == langs;
  }

  /** The unfiltered rows of `getUnits` for the first `n` units of the order. */
  function Rows(ms: LangMaps, langs: seq<Lang>, order: seq<Id>, n: nat, render: Element -> string): (r: seq<Row>)
    requires n <= |order|
    ensures |r| == n
  {
    if n == 0 then []
    else Rows(ms, langs, order, n - 1, render) + [Row(n, order[n - 1], Texts(ms, langs, |langs|, order[n - 1], render))]
  }

  /** Row `j` is the unit at position `j` of the order, numbered from 1. */
  lemma {:induction false} RowsInOrder(ms: LangMaps, langs: seq<Lang>, order: seq<Id>, n: nat, render: Element -> string)
    requires n <= |order|
    ensures forall j :: 0 <= j < n ==> Rows(ms, langs, order, n, render)[j] == Row(j + 1, order[j], Texts(ms, langs, |langs|, order[j], render))
  {
    if n > 0 {
      RowsInOrder(ms, langs, order, n - 1, render);
    }
  }

  /** A page of the unfiltered grid holds consecutive units of the order: the whole
      order when it is shorter than the page, otherwise the units from `start` on,
      each numbered by its position. */
  lemma PageOfRows(ms: LangMaps, langs: seq<Lang>, order: seq<Id>, start: nat, count: nat, render: Element -> string)
    ensures var r := Page(Rows(ms, langs, order, |order|, render), start, count);
      var first := if |order| < count then 0 else start;
      r.Ok? ==>
        && first + |r.value| <= |order|
        && forall j :: 0 <= j < |r.value| ==> r.value[j].index == first + j + 1 && r.value[j].id == order[first + j]
  {
    RowsInOrder(ms, langs, order, |order|, render);
  }

  /** `isUntranslated`: no language other than the source shows a non-blank text. */
  predicate Untranslated(ms: LangMaps, langs: seq<Lang>, src: Lang, id: Id, render: Element -> string)
  {
    forall j :: 0 <= j < |langs| && langs[j] != src ==> IsBlank(Display(ms, langs[j], id, render))
  }

  /** The units among the first `n` of the order that are untranslated, in order. */
  function UntranslatedUnits(ms: LangMaps, langs: seq<Lang>, src: Lang, order: seq<Id>, n: nat, render: Element -> string): (r: seq<Id>)
    requires n <= |order|
  {
    if n == 0 then []
    else
      var before := UntranslatedUnits(ms, langs, src, order, n - 1, render);
      if Untranslated(ms, langs, src, order[n - 1], render) then before + [order[n - 1]] else before
  }

  lemma {:induction false} UntranslatedUnitsMembers(ms: LangMaps, langs: seq<Lang>, src: Lang, order: seq<Id>, n: nat, render: Element -> string)
    requires n <= |order|
    ensures forall x :: x in UntranslatedUnits(ms, langs, src, order, n, render) <==> x in order[..n] && Untranslated(ms, langs, src, x, render)
  {
    if n > 0 {
      UntranslatedUnitsMembers(ms, langs, src, order, n - 1, render);
      assert order[..n] == order[..n - 1] + [order[n - 1]];
    }
  }

  /** Forgetting other units does not change what a unit shows. */
  lemma ForgetKeepsDisplay(ms: LangMaps, gone: set<Id>, l: Lang, id: Id, render: Element -> string)
    requires id !in gone
    ensures Display(Forget(ms, gone), l, id, render) == Display(ms, l, id, render)
  {
  }

  /** After `removeUntranslated`, every unit left in the order has a non-blank text
      in some language other than the source. */
  lemma UntranslatedAllRemoved(ms: LangMaps, langs: seq<Lang>, src: Lang, order: seq<Id>, render: Element -> string)
    ensures var gone := Elements(UntranslatedUnits(ms, langs, src, order, |order|, render));
      forall x :: x in Without(order, gone) ==> !Untranslated(Forget(ms, gone), langs, src, x, render)
  {
    var gone := Elements(UntranslatedUnits(ms, langs, src, order, |order|, render));
    UntranslatedUnitsMembers(ms, langs, src, order, |order|, render);
    assert order[..|order|] == order;
    forall x | x in Without(order, gone) ensures !Untranslated(Forget(ms, gone), langs, src, x, render) {
      assert !Untranslated(ms, langs, src, x, render);
      var j :| 0 <= j < |langs| && langs[j] != src && !IsBlank(Display(ms, langs[j], x, render));
      ForgetKeepsDisplay(ms, gone, langs[j], x, render);
    }
  }

  // ---------------------------------------------------------------------
  // changeLanguage

  /** Every tuv is filed under the language its `xml:lang` names. */
  predicate Filed(ms: LangMaps)
  {
    forall l, x :: l in ms && x in ms[l] ==> Tagged(ms[l][x], l)
  }

  /** The loop of `changeLanguage`: every tuv of a map is retagged with `l`. */
  function Relabeled(m: map<Id, Element>, l: Lang): (r: map<Id, Element>)
    ensures r.Keys == m.Keys
    ensures forall x :: x in r ==> Tagged(r[x], l) && r[x].name == m[x].name && r[x].content == m[x].content
  {
    map x | x in m :: SetAttribute(m[x], "xml:lang", l)
  }

  /** `changeLanguage` as written: the retagged map moves from `from` to `to`, then
      `to` joins the language set and `from` leaves it. */
  function ChangedAsWritten(langs: seq<Lang>, ms: LangMaps, from: Lang, to: Lang): (seq<Lang>, LangMaps)
    requires Sorted(langs) && from in ms
  {
    (Remove(Insert(langs, to), from), (ms - {from})[to := Relabeled(ms[from], to)])
  }

  /** Changing a language into itself, as written, drops it from the language set
      while its map stays: the store is no longer consistent. */
  lemma ChangeIntoItselfBreaksStore(langs: seq<Lang>, ms: LangMaps, units: set<Id>, order: seq<Id>, l: Lang)
    requires Consistent(langs, ms, units, order) && l in ms
    ensures var r := ChangedAsWritten(langs, ms, l, l);
      l !in r.0 && l in r.1 && !Consistent(r.0, r.1, units, order)
  {
  }

  /** `changeLanguage` with the set updated only when the language really changes. */
  function Changed(langs: seq<Lang>, ms: LangMaps, from: Lang, to: Lang): (seq<Lang>, LangMaps)
    requires Sorted(langs) && from in ms
  {
    (if from == to then langs else Remove(Insert(langs, to), from), (ms - {from})[to := Relabeled(ms[from], to)])
  }

  /** The corrected change keeps the store consistent. */
  lemma ChangeLanguageKeepsConsistent(langs: seq<Lang>, ms: LangMaps, units: set<Id>, order: seq<Id>, from: Lang, to: Lang)
    requires Consistent(langs, ms, units, order) && from in ms
    ensures Consistent(Changed(langs, ms, from, to).0, Changed(langs, ms, from, to).1, units, order)
  {
  }

  /** After the change the tuvs of `from` make up the map of `to`, the other
      languages are untouched, and every tuv is still filed under its language. */
  lemma ChangeLanguageKeepsFiled(langs: seq<Lang>, ms: LangMaps, from: Lang, to: Lang)
    requires Sorted(langs) && from in ms
    ensures var r := Changed(langs, ms, from, to);
      && (forall l :: l in r.1 <==> l == to || (l in ms && l != from))
      && r.1[to].Keys == ms[from].Keys
      && (forall l :: l in r.1 && l != to ==> r.1[l] == ms[l])
      && (Filed(ms) ==> Filed(r.1))
  {
    var r := Changed(langs, ms, from, to);
    if Filed(ms) {
      forall l, x | l in r.1 && x in r.1[l] ensures Tagged(r.1[l][x], l) {
        if l != to {
          assert r.1[l] == ms[l];
        }
      }
    }
  }

  // ---------------------------------------------------------------------
  // setTuProperties / setTuNotes

  /** A `prop` element: the type in its `type` attribute, the value as its text. */
  function Prop(kind: string, value: string): Element
  {
    TextElement("prop", [Attribute("type", kind)], value)
  }

  /** The `prop` elements built from the first `n` pairs; a pair with an empty type
      or an empty value is skipped. */
  function Props(pairs: seq<(string, string)>, n: nat): (r: seq<Element>)
    requires n <= |pairs|
    ensures forall i :: 0 <= i < |r| ==> r[i].name == "prop"
  {
    if n == 0 then []
    else Props(pairs, n - 1) + (if pairs[n - 1].0 == "" || pairs[n - 1].1 == "" then [] else [Prop(pairs[n - 1].0, pairs[n - 1].1)])
  }

  /** A property is written exactly when its type and its value are both non-empty. */
  lemma {:induction false} PropsKeepComplete(pairs: seq<(string, string)>, n: nat)
    requires n <= |pairs|
    ensures forall k, v :: Prop(k, v) in Props(pairs, n) <==> (k, v) in pairs[..n] && k != "" && v != ""
    ensures forall e :: e in Props(pairs, n) ==> exists k, v :: e == Prop(k, v) && k != "" && v != ""
  {
    if n > 0 {
      PropsKeepComplete(pairs, n - 1);
      assert pairs[..n] == pairs[..n - 1] + [pairs[n - 1]];
    }
  }

  /** A `note` element holding the given text. */
  function Note(text: string): Element
  {
    TextElement("note", [], text)
  }

  /** The `note` elements built from the first `n` texts; empty texts are skipped. */
  function Notes(texts: seq<string>, n: nat): (r: seq<Element>)
    requires n <= |texts|
    ensures forall i :: 0 <= i < |r| ==> r[i].name == "note"
  {
    if n == 0 then []
    else Notes(texts, n - 1) + (if texts[n - 1] == "" then [] else [Note(texts[n - 1])])
  }

  /** A note is written exactly when its text is non-empty. */
  lemma {:induction false} NotesKeepNonEmpty(texts: seq<string>, n: nat)
    requires n <= |texts|
    ensures forall t :: Note(t) in Notes(texts, n) <==> t in texts[..n] && t != ""
    ensures forall e :: e in Notes(texts, n) ==> exists t :: e == Note(t) && t != ""
  {
    if n > 0 {
      NotesKeepNonEmpty(texts, n - 1);
      assert texts[..n] == texts[..n - 1] + [texts[n - 1]];
    }
  }

  /** The unit after `setTuProperties`: the new props, then the notes it had. */
  function WithProperties(tu: Element, pairs: seq<(string, string)>): Element
  {
    SetChildren(tu, Props(pairs, |pairs|) + Children(tu, "note"))
  }

  /** The unit after `setTuNotes`: the props it had, then the new notes. */
  function WithNotes(tu: Element, texts: seq<string>): Element
  {
    SetChildren(tu, Children(tu, "prop") + Notes(texts, |texts|))
  }

  /** Setting the properties replaces the props and keeps the notes, in order. */
  lemma SetPropertiesKeepsNotes(tu: Element, pairs: seq<(string, string)>)
    ensures Children(WithProperties(tu, pairs), "prop") == Props(pairs, |pairs|)
    ensures Children(WithProperties(tu, pairs), "note") == Children(tu, "note")
  {
    var props := Props(pairs, |pairs|);
    var notes := Children(tu, "note");
    ChildrenAfterSetChildren(tu, props + notes, "prop");
    ChildrenAfterSetChildren(tu, props + notes, "note");
    SplitByName(props, notes, "prop", "note");
  }

  /** Setting the notes keeps the props and replaces the notes, in order. */
  lemma SetNotesKeepsProperties(tu: Element, texts: seq<string>)
    ensures Children(WithNotes(tu, texts), "prop") == Children(tu, "prop")
    ensures Children(WithNotes(tu, texts), "note") == Notes(texts, |texts|)
  {
    var props := Children(tu, "prop");
    var notes := Notes(texts, |texts|);
    ChildrenAfterSetChildren(tu, props + notes, "prop");
    ChildrenAfterSetChildren(tu, props + notes, "note");
    SplitByName(props, notes, "prop", "note");
  }

  // ---------------------------------------------------------------------
  // exportDelimited

  /** The exported text of unit `id` in language `l`: the plain text of its
      segment with line feeds and tabs turned into spaces, or one space when the
      unit has no tuv in that language. */
  function Cell(ms: LangMaps, l: Lang, id: Id): (r: string)
    ensures TabFree(r)
  {
    if l in ms && id in ms[l] then TmxUtils.CleanLines(TmxUtils.TextOnly(Seg(ms[l][id]))) else " "
  }

  /** The cells of one exported row, in the order of the language set. */
  function Cells(ms: LangMaps, langs: seq<Lang>, id: Id): (r: seq<string>)
    ensures |r| == |langs|
    ensures forall j :: 0 <= j < |langs| ==> r[j] == Cell(ms, langs[j], id)
  {
    seq(|langs|, j requires 0 <= j < |langs| => Cell(ms, langs[j], id))
  }

  /** An exported row reads back as one cell per language, in language order, so a
      spreadsheet puts every text in the column of its language. */
  lemma ExportColumns(ms: LangMaps, langs: seq<Lang>, id: Id)
    requires |langs| >= 1
    ensures Split(TabJoin(Cells(ms, langs, id))) == Cells(ms, langs, id)
  {
    SplitTabJoin(Cells(ms, langs, id));
  }

  // ---------------------------------------------------------------------
  // segments

  /** The `seg` child of a tuv; a tuv without one is read as an empty `seg`. */
  function Seg(tuv: Element): Element
  {
    match GetChild(tuv, "seg")
    case Some(s) => s
    case None => Element("seg", [], [])
  }

  // ---------------------------------------------------------------------
  // removeSameAsSource

  /** The tuv of `id` in language `l` repeats the source segment. */
  predicate SameAsSource(ms: LangMaps, src: Lang, l: Lang, id: Id)
  {
    l != src && src in ms && l in ms && id in ms[src] && id in ms[l] && Seg(ms[l][id]) == Seg(ms[src][id])
  }

  /** The units of `ids` whose tuv in `l` repeats the source. */
  function Twins(ms: LangMaps, src: Lang, l: Lang, ids: set<Id>): set<Id>
  {
    set x | x in ids && SameAsSource(ms, src, l, x)
  }

  /** The maps once the target tuvs of `ids` that repeat their source are removed. */
  function Stripped(ms: LangMaps, src: Lang, ids: set<Id>): (r: LangMaps)
    ensures r.Keys == ms.Keys
  {
    map l | l in ms :: ms[l] - Twins(ms, src, l, ids)
  }

  /** A tuv survives stripping exactly when it is not the twin of a stripped unit,
      and it survives unchanged. */
  lemma StrippedAt(ms: LangMaps, src: Lang, ids: set<Id>, l: Lang, x: Id)
    requires l in ms
    ensures x in Stripped(ms, src, ids)[l] <==> x in ms[l] && !(x in ids && SameAsSource(ms, src, l, x))
    ensures x in Stripped(ms, src, ids)[l] ==> Stripped(ms, src, ids)[l][x] == ms[l][x]
  {
  }

  /** Unit `id` has a source tuv and every other tuv it has repeats the source. */
  predicate Orphan(ms: LangMaps, src: Lang, id: Id)
  {
    src in ms && id in ms[src] && forall l :: l in ms && l != src && id in ms[l] ==> SameAsSource(ms, src, l, id)
  }

  /** Stripping twins of one id leaves the twin test of every other id as it was. */
  lemma StrippedKeepsOthers(ms: LangMaps, src: Lang, ids: set<Id>, l: Lang, x: Id)
    requires x !in ids
    ensures SameAsSource(Stripped(ms, src, ids), src, l, x) == SameAsSource(ms, src, l, x)
    ensures Orphan(Stripped(ms, src, ids), src, x) == Orphan(ms, src, x)
  {
    var r := Stripped(ms, src, ids);
    if Orphan(ms, src, x) {
      forall l' | l' in r && l' != src && x in r[l'] ensures SameAsSource(r, src, l', x) { }
    }
    if Orphan(r, src, x) {
      forall l' | l' in ms && l' != src && x in ms[l'] ensures SameAsSource(ms, src, l', x) {
        assert x in r[l'];
      }
    }
  }

  /** After the twins of a unit are stripped, it is an orphan exactly when it has a
      source tuv and nothing else: a unit without a source tuv is never an orphan. */
  lemma OrphanAfterStripping(ms: LangMaps, src: Lang, ids: set<Id>, x: Id)
    requires x in ids && src in ms
    ensures var r := Stripped(ms, src, ids);
      Orphan(ms, src, x) <==> x in r[src] && forall l :: l in r && l != src ==> x !in r[l]
  {
  }

  /** Stripping nothing changes nothing. */
  lemma StrippedNothing(ms: LangMaps, src: Lang)
    ensures Stripped(ms, src, {}) == ms
  {
    forall l | l in ms ensures Stripped(ms, src, {})[l] == ms[l] {
      assert Twins(ms, src, l, {}) == {};
    }
  }

  /** A unit without a source tuv has no twins. */
  lemma StrippedNothingFor(ms: LangMaps, src: Lang, id: Id)
    requires src in ms ==> id !in ms[src]
    ensures Stripped(ms, src, {id}) == ms
  {
    forall l | l in ms ensures Stripped(ms, src, {id})[l] == ms[l] {
      assert Twins(ms, src, l, {id}) == {};
    }
  }

  /** Stripping the twins of one more unit, one unit at a time. */
  lemma StrippedStep(ms: LangMaps, src: Lang, ids: set<Id>, x: Id)
    requires x !in ids
    ensures Stripped(Stripped(ms, src, ids), src, {x}) == Stripped(ms, src, ids + {x})
  {
    var r := Stripped(ms, src, ids);
    forall l | l in ms ensures Stripped(r, src, {x})[l] == Stripped(ms, src, ids + {x})[l] {
      StrippedKeepsOthers(ms, src, ids, l, x);
      assert Twins(r, src, l, {x}) == Twins(ms, src, l, {x});
      assert Twins(ms, src, l, ids + {x}) == Twins(ms, src, l, ids) + Twins(ms, src, l, {x});
    }
  }

  /** Stripping only removes tuvs, so the store stays consistent. */
  lemma StrippedKeepsConsistent(langs: seq<Lang>, ms: LangMaps, units: set<Id>, order: seq<Id>, src: Lang, ids: set<Id>)
    requires Consistent(langs, ms, units, order)
    ensures Consistent(langs, Stripped(ms, src, ids), units, order)
  {
  }

  /** The loop of `removeSameAsSource` for one unit: the tuv of `id` in `l` leaves
      its map when it repeats the source. */
  function StripIn(ms: LangMaps, src: Lang, l: Lang, id: Id): (r: LangMaps)
    ensures r.Keys == ms.Keys
  {
    if SameAsSource(ms, src, l, id) then ms[l := ms[l] - {id}] else ms
  }

  /** That loop over the first `n` languages. */
  function StripEach(ms: LangMaps, src: Lang, langs: seq<Lang>, n: nat, id: Id): (r: LangMaps)
    requires n <= |langs|
    ensures r.Keys == ms.Keys
  {
    if n == 0 then ms else StripIn(StripEach(ms, src, langs, n - 1, id), src, langs[n - 1], id)
  }

  lemma {:induction false} StripEachPrefix(ms: LangMaps, src: Lang, langs: seq<Lang>, n: nat, id: Id)
    requires n <= |langs|
    ensures forall l :: l in ms ==>
      StripEach(ms, src, langs, n, id)[l] == if l in langs[..n] && SameAsSource(ms, src, l, id) then ms[l] - {id} else ms[l]
  {
    if n > 0 {
      StripEachPrefix(ms, src, langs, n - 1, id);
      assert langs[..n] == langs[..n - 1] + [langs[n - 1]];
    }
  }

  /** Before the loop reaches a language, its map and the source map are unchanged. */
  lemma StripEachUntouched(ms: LangMaps, src: Lang, langs: seq<Lang>, n: nat, id: Id, l: Lang)
    requires n <= |langs| && l in ms && (l == src || l !in langs[..n])
    ensures StripEach(ms, src, langs, n, id)[l] == ms[l]
  {
    StripEachPrefix(ms, src, langs, n, id);
  }

  /** Every tuv of `id` among the first `k` languages, other than the source, repeats the source. */
  predicate TwinsUpTo(ms: LangMaps, src: Lang, langs: seq<Lang>, k: nat, id: Id)
    requires k <= |langs|
  {
    forall j :: 0 <= j < k && langs[j] != src && langs[j] in ms && id in ms[langs[j]] ==> SameAsSource(ms, src, langs[j], id)
  }

  lemma TwinsUpToStep(ms: LangMaps, src: Lang, langs: seq<Lang>, k: nat, id: Id)
    requires k < |langs|
    ensures TwinsUpTo(ms, src, langs, k + 1, id)
        <==> TwinsUpTo(ms, src, langs, k, id)
             && (langs[k] != src && langs[k] in ms && id in ms[langs[k]] ==> SameAsSource(ms, src, langs[k], id))
  {
  }

  /** One round of the inner loop of `removeSameAsSource`, for language `langs[k]`:
      it compares the target tuv with the source tuv as they were before the loop. */
  lemma StripRound(m: LangMaps, src: Lang, langs: seq<Lang>, k: nat, id: Id, r: LangMaps)
    requires Distinct(langs) && (forall l :: l in m <==> l in langs)
    requires src in m && id in m[src] && k < |langs| && r == StripEach(m, src, langs, k, id)
    ensures langs[k] in r && src in r && id in r[src]
    ensures var l := langs[k]; var twin := l != src && id in r[l] && Seg(r[src][id]) == Seg(r[l][id]);
      && StripEach(m, src, langs, k + 1, id) == (if twin then StripIn(r, src, l, id) else r)
      && (TwinsUpTo(m, src, langs, k + 1, id)
          <==> TwinsUpTo(m, src, langs, k, id) && !(l != src && id in r[l] && !twin))
  {
    var l := langs[k];
    assert l in m && l !in langs[..k];
    StripEachUntouched(m, src, langs, k, id, l);
    StripEachUntouched(m, src, langs, k, id, src);
    TwinsUpToStep(m, src, langs, k, id);
  }

  /** Over the whole language set, "every other tuv repeats the source" is being an orphan. */
  lemma TwinsUpToAll(ms: LangMaps, src: Lang, langs: seq<Lang>, id: Id)
    requires (forall l :: l in ms <==> l in langs) && src in ms && id in ms[src]
    ensures TwinsUpTo(ms, src, langs, |langs|, id) <==> Orphan(ms, src, id)
  {
    if TwinsUpTo(ms, src, langs, |langs|, id) {
      forall l | l in ms && l != src && id in ms[l] ensures SameAsSource(ms, src, l, id) {
        var j :| 0 <= j < |langs| && langs[j] == l;
      }
    }
  }

  /** Walking every language strips exactly the twins of `id`. */
  lemma StripEachIsStripped(ms: LangMaps, src: Lang, langs: seq<Lang>, id: Id)
    requires forall l :: l in ms ==> l in langs
    ensures StripEach(ms, src, langs, |langs|, id) == Stripped(ms, src, {id})
  {
    StripEachPrefix(ms, src, langs, |langs|, id);
    assert langs[..|langs|] == langs;
    forall l | l in ms ensures StripEach(ms, src, langs, |langs|, id)[l] == Stripped(ms, src, {id})[l] {
      assert Twins(ms, src, l, {id}) == if SameAsSource(ms, src, l, id) then {id} else {};
    }
  }

  /** Once the inner loop of `removeSameAsSource` has seen every language, the twins
      of `id` are stripped, and `id` is an orphan exactly when every tuv it had repeated the source. */
  lemma StripFinished(m: LangMaps, src: Lang, langs: seq<Lang>, id: Id, r: LangMaps)
    requires (forall l :: l in m <==> l in langs) && src in m && id in m[src]
    requires r == StripEach(m, src, langs, |langs|, id)
    ensures r == Stripped(m, src, {id})
    ensures TwinsUpTo(m, src, langs, |langs|, id) <==> Orphan(m, src, id)
  {
    TwinsUpToAll(m, src, langs, id);
    StripEachIsStripped(m, src, langs, id);
  }

  /** What the scan of `removeSameAsSource` needs at unit `i`: the unit was not
      visited before, so its orphan test reads the same on the partly stripped maps. */
  lemma ScanStep(ms: LangMaps, src: Lang, order: seq<Id>, i: nat)
    requires Distinct(order) && i < |order|
    ensures order[i] !in Elements(order[..i])
    ensures Orphan(Stripped(ms, src, Elements(order[..i])), src, order[i]) == Orphan(ms, src, order[i])
  {
    assert order[i] !in Elements(order[..i]) by {
      forall j | 0 <= j < i ensures order[j] != order[i] { }
    }
    StrippedKeepsOthers(ms, src, Elements(order[..i]), src, order[i]);
  }

  /** The maps once the twins of the first `n` units of the order are stripped,
      one unit at a time as `removeSameAsSource` visits them. */
  function StrippedUpTo(ms: LangMaps, src: Lang, order: seq<Id>, n: nat): LangMaps
    requires n <= |order|
  {
    if n == 0 then ms else Stripped(StrippedUpTo(ms, src, order, n - 1), src, {order[n - 1]})
  }

  /** Stripping unit by unit is stripping all the visited units at once. */
  lemma {:induction false} StrippedUpToAll(ms: LangMaps, src: Lang, order: seq<Id>, n: nat)
    requires Distinct(order) && n <= |order|
    ensures StrippedUpTo(ms, src, order, n) == Stripped(ms, src, Elements(order[..n]))
  {
    if n == 0 {
      assert Elements(order[..0]) == {};
      StrippedNothing(ms, src);
    } else {
      StrippedUpToAll(ms, src, order, n - 1);
      ScanStep(ms, src, order, n - 1);
      StrippedStep(ms, src, Elements(order[..n - 1]), order[n - 1]);
      ElementsPrefix(order, n - 1);
    }
  }

  /** The units among the first `n` of the order that are orphans, in order: those
      `removeSameAsSource` deletes. */
  function Orphans(ms: LangMaps, src: Lang, order: seq<Id>, n: nat): seq<Id>
    requires n <= |order|
  {
    if n == 0 then []
    else Orphans(ms, src, order, n - 1) + if Orphan(ms, src, order[n - 1]) then [order[n - 1]] else []
  }

  lemma {:induction false} OrphansMembers(ms: LangMaps, src: Lang, order: seq<Id>, n: nat)
    requires n <= |order|
    ensures forall x :: x in Orphans(ms, src, order, n) <==> x in order[..n] && Orphan(ms, src, x)
  {
    if n > 0 {
      OrphansMembers(ms, src, order, n - 1);
      assert order[..n] == order[..n - 1] + [order[n - 1]];
    }
  }

  /** The effect of `removeSameAsSource` on the maps: the twins of every unit in the
      order are stripped, then the orphans are forgotten. */
  function SameAsSourceRemoved(ms: LangMaps, src: Lang, order: seq<Id>): LangMaps
  {
    Forget(Stripped(ms, src, Elements(order)), Elements(Orphans(ms, src, order, |order|)))
  }

  /** A unit of the order without a source tuv keeps all its tuvs. */
  lemma WithoutSourceUntouched(ms: LangMaps, src: Lang, order: seq<Id>, x: Id)
    requires x in order && src in ms && x !in ms[src]
    ensures forall l :: l in ms ==> (x in SameAsSourceRemoved(ms, src, order)[l] <==> x in ms[l])
  {
    OrphansMembers(ms, src, order, |order|);
    assert order[..|order|] == order;
  }

  /** A unit of the order that keeps any tuv afterwards keeps its source tuv and one
      that differs from it; the deleted units are exactly the orphans. */
  lemma SameAsSourceOutcome(ms: LangMaps, src: Lang, order: seq<Id>, x: Id, l: Lang)
    requires x in order && src in ms && x in ms[src] && l in ms && l != src
    ensures x in SameAsSourceRemoved(ms, src, order)[l] <==> x in ms[l] && !SameAsSource(ms, src, l, x) && !Orphan(ms, src, x)
    ensures x in Orphans(ms, src, order, |order|) <==> Orphan(ms, src, x)
  {
    OrphansMembers(ms, src, order, |order|);
    assert order[..|order|] == order;
  }
}
