/** The in-memory TMX store: the units by id (`tus`), their insertion `order`, the
    sorted language set and one id -> tuv map per language. Unit ids come from a
    counter seeded by the clock. */
module SimpleStore {
  import opened Wrappers
  import opened Strings
  import opened Lists
  import opened Xml
  import opened StoreModel
  import opened Delimited
  import opened Duplicates
  import TmxUtils

  class Store {
    var time: nat
    var languages: seq<Lang>
    var discarded: nat
    var tus: map<Id, Element>
    var order: seq<Id>
    var maps: LangMaps
    var processed: nat
    var exported: nat

    /** The language set is sorted and names exactly the languages that have a map;
        `order` lists every unit once; every stored tuv belongs to a unit. */
    ghost predicate Valid()
      reads this
    {
      Consistent(languages, maps, tus.Keys, order)
    }

    /** An empty store; `now` is the clock reading the unit ids count up from. */
    constructor (now: nat)
      ensures Valid()
      ensures time == now && languages == [] && discarded == 0 && processed == 0 && exported == 0
      ensures tus == map[] && order == [] && maps == map[]
    {
      time := now;
      languages := [];
      discarded := 0;
      tus := map[];
      order := [];
      maps := map[];
      processed := 0;
      exported := 0;
    }

    /** `storeTU`: the unit gets the next id; each tuv that declares a language (by
        `xml:lang`, or by `lang`, which is renamed) is filed in the map of that
        language, creating the language when it is new. The unit itself, stripped of
        its tuvs, is kept only when at least one tuv was filed; otherwise it counts
        as discarded. */
    method StoreTU(element: Element)
      requires Valid()
      requires Decimal(time) !in tus
      modifies this
      ensures Valid()
      ensures time == old(time) + 1 && processed == old(processed)
      ensures var tuvs := Children(element, "tuv"); var id := Decimal(old(time));
        && languages == AddLangs(old(languages), tuvs, |tuvs|)
        && maps == AddTuvs(old(maps), tuvs, |tuvs|, id)
        && if HasLang(tuvs, |tuvs|) then
             tus == old(tus)[id := RemoveChildren(element, "tuv")] && order == old(order) + [id]
             && discarded == old(discarded) && exported == old(exported)
           else
             tus == old(tus) && order == old(order) && discarded == old(discarded) + 1 && exported == old(exported)
    {
      var id := Decimal(time);
      time := time + 1;
      var tuvs := Children(element, "tuv");
      var langs, ms, tuvCount := FileTuvs(languages, maps, tuvs, id);
      HasLangCount(tuvs, |tuvs|);
      StoreKeepsConsistent(old(languages), old(maps), old(tus).Keys, old(order), tuvs, id);
      languages, maps := langs, ms;
      if tuvCount > 0 {
        tus := tus[id := RemoveChildren(element, "tuv")];
        order := order + [id];
        assert tus.Keys == old(tus).Keys + {id};
      } else {
        discarded := discarded + 1;
      }
    }

    /** The loop of `storeTU`: each tuv with a language is normalised and filed
        under unit `id` in the map of its language, which is created (and the
        language inserted in order) when it is new; `tuvCount` counts the tuvs filed. */
    static method FileTuvs(langs: seq<Lang>, ms: LangMaps, tuvs: seq<Element>, id: Id)
      returns (langs': seq<Lang>, ms': LangMaps, tuvCount: nat)
      requires Sorted(langs) && forall l :: l in ms <==> l in langs
      ensures langs' == AddLangs(langs, tuvs, |tuvs|) && ms' == AddTuvs(ms, tuvs, |tuvs|, id)
      ensures tuvCount == FiledCount(tuvs, |tuvs|)
    {
      langs', ms', tuvCount := langs, ms, 0;
      var i := 0;
      while i < |tuvs|
        invariant 0 <= i <= |tuvs|
        invariant langs' == AddLangs(langs, tuvs, i)
        invariant ms' == AddTuvs(ms, tuvs, i, id) && forall l :: l in ms' <==> l in langs'
        invariant tuvCount == FiledCount(tuvs, i)
      {
        langs', ms', tuvCount := FileTuv(langs', ms', tuvCount, tuvs[i], id);
        i := i + 1;
      }
    }

    /** One turn of the loop of `storeTU`: a tuv that declares a language is filed
        and counted. The language set and the maps stay in step. */
    static method FileTuv(langs: seq<Lang>, ms: LangMaps, tuvCount: nat, tuv: Element, id: Id)
      returns (langs': seq<Lang>, ms': LangMaps, tuvCount': nat)
      requires Sorted(langs) && forall l :: l in ms <==> l in langs
      ensures langs' == AddLang(langs, tuv) && ms' == AddTuv(ms, tuv, id)
      ensures forall l :: l in ms' <==> l in langs'
      ensures tuvCount' == tuvCount + if Declares(tuv) then 1 else 0
    {
      langs', ms', tuvCount' := langs, ms, tuvCount;
      var lang := LangOf(tuv);
      if lang != "" {
        var normal := Normalized(tuv);
        if lang !in langs' {
          langs' := Insert(langs', lang);
          ms' := ms'[lang := map[]];
        }
        ms' := ms'[lang := ms'[lang][id := normal]];
        tuvCount' := tuvCount' + 1;
      }
    }

    /** `insertUnit`: a new empty unit with its creation attributes goes to the end of
        the order. `now` stands for the clock, `user` for the `user.name` property,
        `tool` and `version` for the application's name and version. */
    method InsertUnit(id: Id, now: TmxUtils.CalendarFields, user: string, tool: string, version: string)
      requires Valid() && id !in tus && TmxUtils.ValidFields(now)
      modifies this`tus, this`order
      ensures Valid()
      ensures tus == old(tus)[id := NewUnit(id, TmxUtils.TmxDate(now), user, tool, version)]
      ensures order == old(order) + [id]
      ensures languages == old(languages) && maps == old(maps)
      ensures time == old(time) && discarded == old(discarded) && exported == old(exported) && processed == old(processed)
    {
      AddUnitKeepsConsistent(languages, maps, tus.Keys, order, id);
      var tu := NewUnit(id, TmxUtils.TmxDate(now), user, tool, version);
      tus := tus[id := tu];
      order := order + [id];
      assert tus.Keys == old(tus).Keys + {id};
    }

    /** `getCount`: the number of units, which is also the length of the order. */
    function Count(): (r: nat)
      reads this
      requires Valid()
      ensures r == |order|
    {
      DistinctCardinality(order);
      assert tus.Keys == set x | x in order;
      |tus|
    }

    /** `getUnits` without filters: one row per unit in order, each with the text of
        every language, then the requested page. `render` stands for `pureText`. */
    method GetUnits(start: nat, count: nat, render: Element -> string) returns (r: Result<seq<Row>>)
      requires Valid()
      modifies this`processed
      ensures r == Page(Rows(maps, languages, order, |order|, render), start, count)
      ensures processed == |order|
      ensures time == old(time) && languages == old(languages) && discarded == old(discarded) && exported == old(exported)
      ensures tus == old(tus) && order == old(order) && maps == old(maps)
    {
      processed := 0;
      var result: seq<Row> := [];
      var i := 0;
      while i < |order|
        invariant 0 <= i <= |order| && processed == i
        invariant result == Rows(maps, languages, order, i, render)
      {
        var id := order[i];
        var texts := RowTexts(id, render);
        result := result + [Row(i + 1, id, texts)];
        processed := processed + 1;
        i := i + 1;
      }
      r := Page(result, start, count);
    }

    /** The inner loop of `getUnits`: the text of `id` in every language. */
    method RowTexts(id: Id, render: Element -> string) returns (texts: map<Lang, string>)
      ensures texts == Texts(maps, languages, |languages|, id, render)
    {
      texts := map[];
      var k := 0;
      while k < |languages|
        invariant 0 <= k <= |languages|
        invariant texts == Texts(maps, languages, k, id, render)
      {
        texts := texts[languages[k] := Display(maps, languages[k], id, render)];
        k := k + 1;
      }
    }

    /** `isUntranslated`: counts the languages other than `src` whose text is not blank. */
    static method IsUntranslated(ms: LangMaps, langs: seq<Lang>, id: Id, src: Lang, render: Element -> string) returns (r: bool)
      ensures r == Untranslated(ms, langs, src, id, render)
    {
      var count := 0;
      var k := 0;
      while k < |langs|
        invariant 0 <= k <= |langs|
        invariant count == 0 <==> forall j :: 0 <= j < k && langs[j] != src ==> IsBlank(Display(ms, langs[j], id, render))
      {
        if langs[k] != src {
          var seg := Display(ms, langs[k], id, render);
          if !IsBlank(seg) {
            count := count + 1;
          }
        }
        k := k + 1;
      }
      r := count == 0;
    }

    /** `removeUntranslated`: selects the untranslated units in order, deletes them and
        returns how many there were. */
    method RemoveUntranslated(src: Lang, render: Element -> string) returns (n: nat)
      requires Valid()
      modifies this
      ensures Valid()
      ensures var selected := UntranslatedUnits(old(maps), old(languages), src, old(order), |old(order)|, render);
        && n == |selected|
        && maps == Forget(old(maps), Elements(selected))
        && tus == old(tus) - Elements(selected)
        && order == Without(old(order), Elements(selected))
      ensures processed == |old(order)|
      ensures languages == old(languages) && time == old(time) && discarded == old(discarded) && exported == old(exported)
    {
      var selected := SelectUntranslated(src, render);
      n := |selected|;
      DeleteAll(selected);
    }

    /** The scan of `removeUntranslated`: the units, in order, that have no text in
        any language but the source, one processed entry per unit. */
    method SelectUntranslated(src: Lang, render: Element -> string) returns (selected: seq<Id>)
      modifies this`processed
      ensures selected == UntranslatedUnits(maps, languages, src, order, |order|, render)
      ensures processed == |order|
    {
      var ms, langs, ord := maps, languages, order;
      processed := 0;
      selected := [];
      var i := 0;
      while i < |ord|
        invariant 0 <= i <= |ord| && processed == i
        invariant selected == UntranslatedUnits(ms, langs, src, ord, i, render)
      {
        var untranslated := IsUntranslated(ms, langs, ord[i], src, render);
        if untranslated {
          selected := selected + [ord[i]];
        }
        processed := processed + 1;
        i := i + 1;
      }
    }

    /** `delete`: the unit leaves every language map, the unit table and the order;
        nothing else changes. */
    method Delete(id: Id)
      requires Valid()
      modifies this
      ensures Valid()
      ensures maps == Forget(old(maps), {id})
      ensures tus == old(tus) - {id}
      ensures order == RemoveFirst(old(order), id) == Without(old(order), {id})
      ensures languages == old(languages)
      ensures time == old(time) && discarded == old(discarded) && exported == old(exported) && processed == old(processed)
    {
      DeleteKeepsConsistent(languages, maps, tus.Keys, order, {id});
      RemoveFirstDistinct(order, id);
      ForgetInMaps(id);
      tus := tus - {id};
      order := RemoveFirst(order, id);
    }

    /** The loop of `delete` over the language set. */
    method ForgetInMaps(id: Id)
      requires forall l :: l in maps ==> l in languages
      modifies this
      ensures maps == Forget(old(maps), {id})
      ensures languages == old(languages) && tus == old(tus) && order == old(order)
      ensures time == old(time) && discarded == old(discarded) && exported == old(exported) && processed == old(processed)
    {
      var k := 0;
      while k < |languages|
        invariant 0 <= k <= |languages|
        invariant maps == ForgetEach(old(maps), languages, k, id)
        invariant languages == old(languages) && tus == old(tus) && order == old(order)
        invariant time == old(time) && discarded == old(discarded) && exported == old(exported) && processed == old(processed)
      {
        maps := ForgetIn(maps, languages[k], id);
        k := k + 1;
      }
      ForgetEachIsForget(old(maps), languages, id);
    }

    /** Deletes every unit of `ids`, one after the other. */
    method DeleteAll(ids: seq<Id>)
      requires Valid()
      modifies this
      ensures Valid()
      ensures maps == Forget(old(maps), Elements(ids))
      ensures tus == old(tus) - Elements(ids)
      ensures order == Without(old(order), Elements(ids))
      ensures languages == old(languages)
      ensures time == old(time) && discarded == old(discarded) && exported == old(exported) && processed == old(processed)
    {
      WithoutNothing(order, {});
      ForgetNothing(maps);
      assert tus - {} == tus;
      ghost var done: set<Id> := {};
      var k := 0;
      while k < |ids|
        invariant 0 <= k <= |ids| && Valid()
        invariant done == Elements(ids[..k])
        invariant maps == Forget(old(maps), done)
        invariant tus == old(tus) - done
        invariant order == Without(old(order), done)
        invariant languages == old(languages)
        invariant time == old(time) && discarded == old(discarded) && exported == old(exported) && processed == old(processed)
      {
        Delete(ids[k]);
        ForgetTwice(old(maps), done, {ids[k]});
        WithoutTwice(old(order), done, {ids[k]});
        MinusTwice(old(tus), done, {ids[k]});
        assert ids[..k + 1] == ids[..k] + [ids[k]];
        ElementsAppend(ids[..k], ids[k]);
        done := done + {ids[k]};
        k := k + 1;
      }
      assert ids[..k] == ids;
    }

    /** `changeLanguage`: every tuv of `from` is retagged with `to` and the map moves
        to `to`. Without a map for `from` the source fails on a null dereference; here
        that is `ok == false` and nothing changes. The language set is updated only
        when the language really changes (see the findings). */
    method ChangeLanguage(from: Lang, to: Lang) returns (ok: bool)
      requires Valid()
      modifies this`languages, this`maps, this`processed
      ensures Valid()
      ensures ok == (from in old(maps))
      ensures ok ==> (languages, maps) == Changed(old(languages), old(maps), from, to)
      ensures ok ==> processed == old(processed) + |old(maps)[from]|
      ensures !ok ==> languages == old(languages) && maps == old(maps) && processed == old(processed)
      ensures tus == old(tus) && order == old(order) && time == old(time) && discarded == old(discarded) && exported == old(exported)
    {
      if from !in maps {
        return false;
      }
      var langs, ms := languages, maps;
      var m := RelabelTuvs(from, to);
      var next := (if from == to then langs else Remove(Insert(langs, to), from), (ms - {from})[to := m]);
      assert next == Changed(langs, ms, from, to);
      ChangeLanguageKeepsConsistent(langs, ms, tus.Keys, order, from, to);
      languages, maps := next.0, next.1;
      ok := true;
    }

    /** The loop of `changeLanguage`: each tuv of `from` gets `xml:lang` = `to`,
        counting one processed entry per tuv. */
    method RelabelTuvs(from: Lang, to: Lang) returns (m: map<Id, Element>)
      requires from in maps
      modifies this`processed
      ensures m == Relabeled(maps[from], to)
      ensures processed == old(processed) + |maps[from]|
    {
      var tuvs := maps[from];
      m := tuvs;
      var pending := m.Keys;
      while pending != {}
        invariant pending <= m.Keys == tuvs.Keys
        invariant forall x :: x in m ==> m[x] == if x in pending then tuvs[x] else SetAttribute(tuvs[x], "xml:lang", to)
        invariant processed + |pending| == old(processed) + |tuvs|
        decreases |pending|
      {
        var x :| x in pending;
        m := m[x := SetAttribute(m[x], "xml:lang", to)];
        processed := processed + 1;
        pending := pending - {x};
      }
      assert m == Relabeled(tuvs, to);
    }

    /** `setTuProperties`: the unit's children become a `prop` for each pair with a
        non-empty type and value, followed by the notes it had. An unknown id makes
        the source fail on a null dereference; here that is `ok == false`. */
    method SetTuProperties(id: Id, pairs: seq<(string, string)>) returns (ok: bool)
      requires Valid()
      modifies this
      ensures Valid()
      ensures ok == (id in old(tus))
      ensures tus == if ok then old(tus)[id := WithProperties(old(tus)[id], pairs)] else old(tus)
      ensures order == old(order) && languages == old(languages) && maps == old(maps)
      ensures time == old(time) && discarded == old(discarded) && exported == old(exported) && processed == old(processed)
    {
      var content: seq<Element> := [];
      var i := 0;
      while i < |pairs|
        invariant 0 <= i <= |pairs|
        invariant content == Props(pairs, i)
      {
        var pair := pairs[i];
        if pair.0 != "" && pair.1 != "" {
          content := content + [Prop(pair.0, pair.1)];
        }
        i := i + 1;
      }
      if id !in tus {
        return false;
      }
      var tu := tus[id];
      content := content + Children(tu, "note");
      tus := tus[id := SetChildren(tu, content)];
      ok := true;
    }

    /** `setTuNotes`: the unit's children become the props it had, followed by a
        `note` for each non-empty text. An unknown id is `ok == false`. */
    method SetTuNotes(id: Id, texts: seq<string>) returns (ok: bool)
      requires Valid()
      modifies this
      ensures Valid()
      ensures ok == (id in old(tus))
      ensures tus == if ok then old(tus)[id := WithNotes(old(tus)[id], texts)] else old(tus)
      ensures order == old(order) && languages == old(languages) && maps == old(maps)
      ensures time == old(time) && discarded == old(discarded) && exported == old(exported) && processed == old(processed)
    {
      if id !in tus {
        return false;
      }
      var tu := tus[id];
      var content := AppendNotes(Children(tu, "prop"), texts);
      tus := tus[id := SetChildren(tu, content)];
      ok := true;
    }

    /** The loop of `setTuNotes`: a `note` for each non-empty text, after the props. */
    static method AppendNotes(props: seq<Element>, texts: seq<string>) returns (content: seq<Element>)
      ensures content == props + Notes(texts, |texts|)
    {
      content := props;
      var i := 0;
      while i < |texts|
        invariant 0 <= i <= |texts|
        invariant content == props + Notes(texts, i)
      {
        if texts[i] != "" {
          AppendTwice(props, Notes(texts, i), [Note(texts[i])]);
          content := content + [Note(texts[i])];
        }
        i := i + 1;
      }
    }

    /** The text `exportDelimited` writes: a header line with the language codes,
        then one line per unit in order, the cells separated by tabs. A tab goes
        between every two cells (see the findings for the source's own test).
        `exported` counts the unit lines written. */
    method ExportDelimited() returns (header: string, lines: seq<string>)
      requires Valid()
      modifies this`exported
      ensures exported == |order|
      ensures header == TabJoin(languages) + "\n"
      ensures |lines| == |order|
      ensures forall i :: 0 <= i < |order| ==> lines[i] == TabJoin(Cells(maps, languages, order[i])) + "\n"
    {
      header := "";
      var k := 0;
      while k < |languages|
        invariant 0 <= k <= |languages|
        invariant header == TabJoin(languages[..k])
      {
        if k > 0 {
          TabJoinSnoc(languages[..k], languages[k]);
          header := header + "\t";
        } else {
          assert [languages[0]] == languages[..1];
        }
        assert languages[..k + 1] == languages[..k] + [languages[k]];
        header := header + languages[k];
        k := k + 1;
      }
      assert languages[..k] == languages;
      header := header + "\n";
      exported := 0;
      lines := [];
      var i := 0;
      while i < |order|
        invariant 0 <= i <= |order| && |lines| == i && exported == i
        invariant forall j :: 0 <= j < i ==> lines[j] == TabJoin(Cells(maps, languages, order[j])) + "\n"
      {
        var line := ExportRow(order[i]);
        lines := lines + [line + "\n"];
        exported := exported + 1;
        i := i + 1;
      }
    }

    /** The inner loop of `exportDelimited`: the cells of one unit, tab-separated. */
    method ExportRow(id: Id) returns (line: string)
      ensures line == TabJoin(Cells(maps, languages, id))
    {
      var cells := Cells(maps, languages, id);
      line := "";
      var k := 0;
      while k < |languages|
        invariant 0 <= k <= |languages|
        invariant line == TabJoin(cells[..k])
      {
        var text := " ";
        if languages[k] in maps && id in maps[languages[k]] {
          text := TmxUtils.CleanLines(TmxUtils.TextOnly(Seg(maps[languages[k]][id])));
        }
        if k > 0 {
          TabJoinSnoc(cells[..k], cells[k]);
          line := line + "\t";
        } else {
          assert [cells[0]] == cells[..1];
        }
        assert cells[..k + 1] == cells[..k] + [cells[k]];
        line := line + text;
        k := k + 1;
      }
      assert cells[..k] == cells;
    }

    /** `removeSameAsSource`: in every unit with a source tuv, each target tuv whose
        segment equals the source segment is removed; a unit left with no target
        tuv that differs from its source is then deleted. Without a map for `src`
        the source fails on a null dereference at the first unit; here that is
        `ok == false`, with only `processed` reset to 0. */
    method RemoveSameAsSource(src: Lang) returns (ok: bool)
      requires Valid()
      modifies this
      ensures Valid()
      ensures ok == (src in old(maps) || old(order) == [])
      ensures ok ==> var selected := Elements(Orphans(old(maps), src, old(order), |old(order)|));
        && maps == SameAsSourceRemoved(old(maps), src, old(order))
        && tus == old(tus) - selected
        && order == Without(old(order), selected)
        && processed == |old(order)|
      ensures !ok ==> maps == old(maps) && tus == old(tus) && order == old(order) && processed == 0
      ensures languages == old(languages) && time == old(time) && discarded == old(discarded) && exported == old(exported)
    {
      processed := 0;
      if src !in maps && order != [] {
        return false;
      }
      SortedLanguagesDistinct(languages);
      var m, selected := ScanSameAsSource(src);
      StrippedKeepsConsistent(languages, maps, tus.Keys, order, src, Elements(order));
      maps := m;
      DeleteAll(selected);
      ok := true;
    }

    /** The scan of `removeSameAsSource` over the units in order: the twins of each
        unit are stripped from a copy of the maps, and the orphans are selected. */
    method ScanSameAsSource(src: Lang) returns (m: LangMaps, selected: seq<Id>)
      requires Distinct(languages) && (forall l :: l in maps <==> l in languages) && Distinct(order)
      requires (src in maps || order == []) && processed == 0
      modifies this`processed
      ensures m == Stripped(maps, src, Elements(order))
      ensures selected == Orphans(maps, src, order, |order|)
      ensures processed == |order|
    {
      var ms, ord := maps, order;
      m := ms;
      selected := [];
      var i := 0;
      while i < |ord|
        invariant 0 <= i <= |ord| && processed == i
        invariant m == StrippedUpTo(ms, src, ord, i)
        invariant selected == Orphans(ms, src, ord, i)
      {
        var id := ord[i];
        var orphan;
        m, orphan := ScanUnit(ms, src, ord, i, m);
        if orphan {
          selected := selected + [id];
        }
        processed := processed + 1;
        i := i + 1;
      }
      StrippedUpToAll(ms, src, ord, i);
      assert ord[..i] == ord;
    }

    /** One unit of the `removeSameAsSource` scan: a unit with a source tuv has its
        twins stripped, and it is an orphan when none of its target tuvs differs. */
    method ScanUnit(ms: LangMaps, src: Lang, ord: seq<Id>, i: nat, m: LangMaps) returns (r: LangMaps, orphan: bool)
      requires Distinct(languages) && (forall l :: l in ms <==> l in languages) && src in ms
      requires Distinct(ord) && i < |ord| && m == StrippedUpTo(ms, src, ord, i)
      ensures r == StrippedUpTo(ms, src, ord, i + 1)
      ensures orphan == Orphan(ms, src, ord[i])
    {
      var id := ord[i];
      StrippedUpToAll(ms, src, ord, i);
      ScanStep(ms, src, ord, i);
      if id in m[src] {
        var count;
        r, count := StripTwins(m, id, src);
        StripFinished(m, src, languages, id, r);
        orphan := count == 0;
      } else {
        StrippedNothingFor(m, src, id);
        r, orphan := m, false;
      }
    }

    /** The inner loop of `removeSameAsSource` for one unit with a source tuv: its
        target tuvs that repeat the source leave their maps, and `count` is the
        number of target tuvs that differ. */
    method StripTwins(m: LangMaps, id: Id, src: Lang) returns (r: LangMaps, count: nat)
      requires Distinct(languages) && (forall l :: l in m <==> l in languages)
      requires src in m && id in m[src]
      ensures r == StripEach(m, src, languages, |languages|, id)
      ensures count == 0 <==> TwinsUpTo(m, src, languages, |languages|, id)
    {
      r := m;
      count := 0;
      var k := 0;
      while k < |languages|
        invariant 0 <= k <= |languages|
        invariant r == StripEach(m, src, languages, k, id)
        invariant count == 0 <==> TwinsUpTo(m, src, languages, k, id)
      {
        var lang := languages[k];
        StripRound(m, src, languages, k, id, r);
        if lang != src && id in r[lang] {
          if Seg(r[src][id]) == Seg(r[lang][id]) {
            r := StripIn(r, src, lang, id);
          } else {
            count := count + 1;
          }
        }
        k := k + 1;
      }
    }

    /** `addLanguage`: a new language joins the set with an empty map; a known one
        changes nothing, so adding twice is adding once. */
    method AddLanguage(lang: Lang)
      requires Valid()
      modifies this
      ensures Valid()
      ensures languages == Insert(old(languages), lang)
      ensures maps == if lang in old(maps) then old(maps) else old(maps)[lang := map[]]
      ensures old(lang in languages) ==> languages == old(languages) && maps == old(maps)
      ensures tus == old(tus) && order == old(order)
      ensures time == old(time) && discarded == old(discarded) && exported == old(exported) && processed == old(processed)
    {
      if lang !in languages {
        languages := Insert(languages, lang);
        maps := maps[lang := map[]];
      }
    }

    /** `removeLanguage`: the language and its map go; an unknown language changes nothing. */
    method RemoveLanguage(lang: Lang)
      requires Valid()
      modifies this
      ensures Valid()
      ensures languages == Remove(old(languages), lang) && lang !in languages
      ensures maps == old(maps) - {lang}
      ensures old(lang !in languages) ==> languages == old(languages) && maps == old(maps)
      ensures tus == old(tus) && order == old(order)
      ensures time == old(time) && discarded == old(discarded) && exported == old(exported) && processed == old(processed)
    {
      if lang in languages {
        maps := maps - {lang};
        languages := Remove(languages, lang);
      }
    }
  
    /** The `repeated` test of `removeDuplicates`: units `a` and `b` agree in every
        language of the set. */
    static method Repeated(ms: LangMaps, langs: seq<Lang>, a: Id, b: Id) returns (r: bool)
      requires forall k :: 0 <= k < |langs| ==> langs[k] in ms
      ensures r == SameProfile(ms, langs, a, b)
    {
      var k := 0;
      while k < |langs|
        invariant 0 <= k <= |langs|
        invariant forall t :: 0 <= t < k ==> Twin(ms, langs[t], a, b)
      {
        var m := ms[langs[k]];
        if a in m {
          if b !in m || Seg(m[a]) != Seg(m[b]) {
            assert !Twin(ms, langs[k], a, b);
            return false;
          }
        } else if b in m {
          assert !Twin(ms, langs[k], a, b);
          return false;
        }
        k := k + 1;
      }
      r := true;
    }

    /** The pairs of `removeDuplicates` and `consolidateUnits` before sorting: the
        units with a non-empty text in language `l`, in the order of the store. */
    method CollectPairs(l: Lang) returns (ps: seq<Pair>)
      ensures ps == TextPairs(maps, l, order, |order|)
    {
      ps := [];
      var i := 0;
      while i < |order|
        invariant 0 <= i <= |order|
        invariant ps == TextPairs(maps, l, order, i)
      {
        var text := MakeText(maps, l, order[i]);
        if text != "" {
          ps := ps + [Pair(order[i], text)];
        }
        i := i + 1;
      }
    }

    /** The scan of one round of `removeDuplicates` over the sorted pairs: each pair
        is compared with the later pairs of its run, and a later pair with the
        same profile is collected (once) in `deleteLater`. `processed` counts the
        outer iterations. */
    method MarkDuplicates(ps: seq<Pair>) returns (deleteLater: set<Id>)
      requires Valid()
      modifies this`processed
      ensures deleteLater == Echoes(maps, languages, ps)
      ensures processed == if ps == [] then 0 else |ps| - 1
    {
      var ms, langs := maps, languages;
      processed := 0;
      deleteLater := {};
      var i := 0;
      while i + 1 < |ps|
        invariant 0 <= i <= |ps| && (ps != [] ==> i < |ps|) && processed == i
        invariant deleteLater == Scan(ms, langs, ps, i)
      {
        deleteLater := MarkRun(ms, langs, ps, i, deleteLater);
        processed := processed + 1;
        i := i + 1;
      }
      if ps != [] {
        assert Scan(ms, langs, ps, |ps|) == Scan(ms, langs, ps, |ps| - 1);
      }
      ScanIsEchoes(ms, langs, ps);
    }

    /** The inner loop of `removeDuplicates` for pair `i`: the later pairs with the
        same text and the same profile join `marked`. */
    static method MarkRun(ms: LangMaps, langs: seq<Lang>, ps: seq<Pair>, i: nat, marked: set<Id>) returns (marked': set<Id>)
      requires forall k :: 0 <= k < |langs| ==> langs[k] in ms
      requires i + 1 < |ps|
      ensures marked' == marked + RunFrom(ms, langs, ps, i, i + 1)
    {
      marked' := marked;
      var j := i + 1;
      while j < |ps| && ps[i].text == ps[j].text
        invariant i + 1 <= j <= |ps|
        invariant marked' + RunFrom(ms, langs, ps, i, j) == marked + RunFrom(ms, langs, ps, i, i + 1)
      {
        if ps[j].id !in marked' {
          var repeated := Repeated(ms, langs, ps[i].id, ps[j].id);
          if repeated {
            marked' := marked' + {ps[j].id};
          }
        }
        j := j + 1;
      }
    }

    /** Deletes every unit of `ids` (a sorted set in the source; the order of the
        deletions does not change the outcome). */
    method DeleteSet(ids: set<Id>)
      requires Valid()
      modifies this
      ensures Valid()
      ensures maps == Forget(old(maps), ids)
      ensures tus == old(tus) - ids
      ensures order == Without(old(order), ids)
      ensures languages == old(languages)
      ensures time == old(time) && discarded == old(discarded) && exported == old(exported) && processed == old(processed)
    {
      WithoutNothing(order, {});
      ForgetNothing(maps);
      assert tus - {} == tus;
      ghost var done: set<Id> := {};
      var rest := ids;
      while rest != {}
        invariant Valid() && done + rest == ids
        invariant maps == Forget(old(maps), done)
        invariant tus == old(tus) - done
        invariant order == Without(old(order), done)
        invariant languages == old(languages)
        invariant time == old(time) && discarded == old(discarded) && exported == old(exported) && processed == old(processed)
        decreases |rest|
      {
        var x :| x in rest;
        Delete(x);
        ForgetTwice(old(maps), done, {x});
        WithoutTwice(old(order), done, {x});
        MinusTwice(old(tus), done, {x});
        done := done + {x};
        rest := rest - {x};
      }
    }

    /** One round of `removeDuplicates`: the pairs of language `l` are listed,
        sorted and scanned, and the units the scan collects are deleted. */
    method DeduplicateRound(l: Lang) returns (d: set<Id>)
      requires Valid()
      modifies this
      ensures Valid()
      ensures d == DuplicatesIn(old(maps), old(languages), l, old(order))
      ensures maps == Forget(old(maps), d)
      ensures tus == old(tus) - d
      ensures order == Without(old(order), d)
      ensures languages == old(languages) && time == old(time) && discarded == old(discarded) && exported == old(exported)
    {
      var ps := CollectPairs(l);
      ps := SortByText(ps);
      d := MarkDuplicates(ps);
      DeleteSet(d);
    }

    /** `removeDuplicates`: one round per language of the set but the last, each
        deleting the units its scan collects. */
    method RemoveDuplicates()
      requires Valid()
      modifies this
      ensures Valid()
      ensures var r := Deduplicated(old(maps), old(languages), old(order), 0);
        maps == r.0 && order == r.1 && tus == old(tus) - r.2
      ensures languages == old(languages) && time == old(time) && discarded == old(discarded) && exported == old(exported)
      ensures |languages| < 2 ==> processed == old(processed)
    {
      var langs := languages;
      ghost var target := Deduplicated(maps, langs, order, 0);
      ListedAll(tus, order);
      DeduplicatedListed(tus, maps, langs, order);
      var m := 0;
      while m + 1 < |langs|
        invariant Valid() && langs == languages == old(languages)
        invariant m == 0 || m < |langs|
        invariant Deduplicated(maps, langs, order, m).0 == target.0
        invariant Deduplicated(maps, langs, order, m).1 == target.1
        invariant tus == Listed(old(tus), order)
        invariant time == old(time) && discarded == old(discarded) && exported == old(exported)
        invariant m == 0 ==> processed == old(processed)
        decreases |langs| - m
      {
        DeduplicatedNext(maps, langs, order, m);
        ghost var before := order;
        var d := DeduplicateRound(langs[m]);
        ListedWithout(old(tus), before, d);
        m := m + 1;
      }
    }

    /** The step of `consolidateUnits` for one pair of units of a run: `into`
        takes the tuvs `from` has and it lacks. */
    static method AbsorbInto(ms: LangMaps, langs: seq<Lang>, src: Lang, into: Id, from: Id) returns (r: LangMaps)
      requires forall l :: l in ms <==> l in langs
      ensures r == Absorb(ms, langs, src, into, from)
    {
      MoveEachIsAbsorb(ms, langs, src, into, from);
      r := MoveAcross(ms, langs, src, into, from);
    }

    /** The loop of `consolidateUnits` over the language set for one pair of units:
        in each language but the source, `into` takes the tuv of `from` when it has
        none and `from` has one. */
    static method MoveAcross(ms: LangMaps, langs: seq<Lang>, src: Lang, into: Id, from: Id) returns (r: LangMaps)
      requires forall k :: 0 <= k < |langs| ==> langs[k] in ms
      ensures r == MoveEach(ms, langs, |langs|, src, into, from)
    {
      r := ms;
      var t := 0;
      while t < |langs|
        invariant 0 <= t <= |langs|
        invariant r == MoveEach(ms, langs, t, src, into, from)
        invariant forall l :: l in r <==> l in ms
      {
        var l := langs[t];
        var m := r[l];
        if l != src && into !in m && from in m {
          m := m[into := m[from]] - {from};
        }
        MoveEachNext(ms, langs, t, src, into, from, r, m);
        r := r[l := m];
        t := t + 1;
      }
    }

    /** `consolidateUnits`: over the sorted pairs of the source language, one run
        of equal texts at a time, each later unit of the run whose source segment
        equals the first one's gives it the translations it lacks; then the
        untranslated units are removed. Without a map for `src` the source fails
        on a null dereference; here that is `ok == false`, with only `processed`
        reset to 0. */
    method ConsolidateUnits(src: Lang, render: Element -> string) returns (ok: bool)
      requires Valid()
      modifies this
      ensures Valid()
      ensures ok == (src in old(maps))
      ensures ok ==> var mid := ConsolidatePass(old(maps), old(languages), src, old(order));
          var selected := Elements(UntranslatedUnits(mid, old(languages), src, old(order), |old(order)|, render));
        && maps == Forget(mid, selected)
        && tus == old(tus) - selected
        && order == Without(old(order), selected)
        && processed == |old(order)|
      ensures !ok ==> maps == old(maps) && tus == old(tus) && order == old(order) && processed == 0
      ensures languages == old(languages) && time == old(time) && discarded == old(discarded) && exported == old(exported)
    {
      processed := 0;
      if src !in maps {
        return false;
      }
      var ps := CollectPairs(src);
      ps := SortByText(ps);
      PairsInSource(maps, src, order);
      ConsolidateScan(src, maps[src], ps);
      ok := true;
      var _ := RemoveUntranslated(src, render);
    }

    /** The outer loop of `consolidateUnits`: one run of equal texts at a time;
        `seg` is the map of the source language, which the loop does not change,
        and `processed` counts the runs. The loop works on a copy of the maps,
        stored when it ends. */
    method ConsolidateScan(src: Lang, seg: map<Id, Element>, ps: seq<Pair>)
      requires Valid() && seg.Keys <= tus.Keys && forall x :: x in ps ==> x.id in seg
      modifies this`maps, this`processed
      ensures Valid()
      ensures maps == Consolidated(old(maps), languages, src, seg, ps, 0)
      ensures old(processed) <= processed <= old(processed) + |ps|
    {
      var start, langs := maps, languages;
      var ms, runs := ConsolidateRuns(start, langs, src, seg, ps);
      ConsolidatedKeepsConsistent(langs, start, tus.Keys, order, src, seg, ps, 0);
      maps := ms;
      processed := processed + runs;
    }

    /** The loop of `consolidateUnits` over the pairs sorted by text; `runs` is the
        number of runs it absorbs. */
    static method ConsolidateRuns(start: LangMaps, langs: seq<Lang>, src: Lang, seg: map<Id, Element>, ps: seq<Pair>)
      returns (ms: LangMaps, runs: nat)
      requires (forall l :: l in start <==> l in langs) && (forall x :: x in ps ==> x.id in seg)
      ensures ms == Consolidated(start, langs, src, seg, ps, 0)
      ensures runs <= |ps|
    {
      ms := start;
      runs := 0;
      var i := 0;
      while i + 1 < |ps|
        invariant ms.Keys == start.Keys && runs <= i <= |ps|
        invariant Consolidated(ms, langs, src, seg, ps, i) == Consolidated(start, langs, src, seg, ps, 0)
        decreases |ps| - i
      {
        ms, i := ConsolidateStep(ms, langs, src, seg, ps, i, Consolidated(start, langs, src, seg, ps, 0));
        runs := runs + 1;
      }
    }

    /** One turn of the outer loop: the run of pair `i` is absorbed and `k` is the
        pair after it; what is left of the loop still comes to `whole`. */
    static method ConsolidateStep(ms: LangMaps, langs: seq<Lang>, src: Lang, seg: map<Id, Element>, ps: seq<Pair>, i: nat,
                                  ghost whole: LangMaps)
      returns (r: LangMaps, k: nat)
      requires (forall l :: l in ms <==> l in langs) && (forall x :: x in ps ==> x.id in seg)
      requires i + 1 < |ps| && Consolidated(ms, langs, src, seg, ps, i) == whole
      ensures r.Keys == ms.Keys && i < k <= |ps|
      ensures Consolidated(r, langs, src, seg, ps, k) == whole
    {
      var j;
      r, j := ConsolidateRun(ms, langs, src, seg, ps, i);
      ConsolidatedNext(ms, langs, src, seg, ps, i, r, i + j);
      k := i + j;
    }

    /** The inner loop of `consolidateUnits` over the run of pair `i`; `j` is the
        length of the run. */
    static method ConsolidateRun(ms: LangMaps, langs: seq<Lang>, src: Lang, seg: map<Id, Element>, ps: seq<Pair>, i: nat)
      returns (r: LangMaps, j: nat)
      requires (forall l :: l in ms <==> l in langs) && (forall x :: x in ps ==> x.id in seg)
      requires i + 1 < |ps|
      ensures r.Keys == ms.Keys
      ensures r == AbsorbRun(ms, langs, src, seg, ps, i, 1)
      ensures j == RunLength(ps, i) && 1 <= j <= |ps| - i
    {
      assert ps[i] in ps;
      var current := ps[i].id;
      var currentSeg := Seg(seg[current]);
      r := ms;
      j := 1;
      while i + j < |ps| && ps[i].text == ps[i + j].text
        invariant 1 <= j <= RunLength(ps, i)
        invariant r.Keys == ms.Keys
        invariant AbsorbRun(r, langs, src, seg, ps, i, j) == AbsorbRun(ms, langs, src, seg, ps, i, 1)
        decreases |ps| - j
      {
        var next := ps[i + j].id;
        AbsorbRunNext(r, langs, src, seg, ps, i, j);
        if currentSeg == Seg(seg[next]) {
          r := AbsorbInto(r, langs, src, current, next);
        }
        j := j + 1;
      }
    }
  }
}
