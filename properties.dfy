/** The property list of the Properties dialog (ts/properties.ts): the unit or
    variant being edited, and its `prop` elements as (type, value) pairs that the
    dialog adds to, deletes from by type, and sends back to be saved. */
module PropertyList {
  import opened Lists

  /** A property: its `type` attribute and its text. */
  datatype Pair = Pair(name: string, value: string)

  /** The pairs whose type is not `t`, in their order. */
  function WithoutType(props: seq<Pair>, t: string): (r: seq<Pair>)
    ensures |r| <= |props|
    ensures forall p :: p in r <==> p in props && p.name != t
  {
    if props == [] then []
    else (if props[0].name == t then [] else [props[0]]) + WithoutType(props[1..], t)
  }

  lemma {:induction false} WithoutTypeAppend(a: seq<Pair>, b: seq<Pair>, t: string)
    ensures WithoutType(a + b, t) == WithoutType(a, t) + WithoutType(b, t)
    decreases |a|
  {
    if a != [] {
      assert (a + b)[0] == a[0] && (a + b)[1..] == a[1..] + b;
      WithoutTypeAppend(a[1..], b, t);
    } else {
      assert a + b == b;
    }
  }

  /** Deleting by type keeps the other pairs in their order. */
  lemma {:induction false} WithoutTypeKeepsOrder(props: seq<Pair>, t: string)
    ensures Subsequence(WithoutType(props, t), props)
    decreases |props|
  {
    if props != [] {
      WithoutTypeKeepsOrder(props[1..], t);
      var rest := WithoutType(props[1..], t);
      if props[0].name == t {
        assert WithoutType(props, t) == rest;
        SkipHead(rest, props);
      } else {
        assert WithoutType(props, t) == [props[0]] + rest;
        assert ([props[0]] + rest)[1..] == rest;
      }
    }
  }

  /** Deleting a type nobody has changes nothing. */
  lemma {:induction false} WithoutAbsentType(props: seq<Pair>, t: string)
    requires forall i :: 0 <= i < |props| ==> props[i].name != t
    ensures WithoutType(props, t) == props
    decreases |props|
  {
    if props != [] {
      WithoutAbsentType(props[1..], t);
      assert props == [props[0]] + props[1..];
    }
  }

  /** Deleting a type twice is deleting it once. */
  lemma WithoutTypeTwice(props: seq<Pair>, t: string)
    ensures WithoutType(WithoutType(props, t), t) == WithoutType(props, t)
  {
    var r := WithoutType(props, t);
    assert forall i :: 0 <= i < |r| ==> r[i] in r;
    WithoutAbsentType(r, t);
  }

  /** Deleting two types in either order gives the same list. */
  lemma {:induction false} WithoutTypesCommute(props: seq<Pair>, t: string, u: string)
    ensures WithoutType(WithoutType(props, t), u) == WithoutType(WithoutType(props, u), t)
    decreases |props|
  {
    if props != [] {
      WithoutTypesCommute(props[1..], t, u);
      var head := [props[0]];
      WithoutTypeAppend(if props[0].name == t then [] else head, WithoutType(props[1..], t), u);
      WithoutTypeAppend(if props[0].name == u then [] else head, WithoutType(props[1..], u), t);
    }
  }

  /** The pairs whose type is none of `types`: the effect of removing each in turn. */
  function WithoutTypes(props: seq<Pair>, types: seq<string>): (r: seq<Pair>)
    decreases |types|
  {
    if types == [] then props else WithoutTypes(WithoutType(props, types[0]), types[1..])
  }

  /** Removing the checked types one after the other leaves exactly the pairs of
      the other types. */
  lemma {:induction false} WithoutTypesMembers(props: seq<Pair>, types: seq<string>)
    ensures forall p :: p in WithoutTypes(props, types) <==> p in props && p.name !in types
    decreases |types|
  {
    if types != [] {
      WithoutTypesMembers(WithoutType(props, types[0]), types[1..]);
    }
  }

  lemma WithoutTypesSnoc(props: seq<Pair>, types: seq<string>, t: string)
    ensures WithoutTypes(props, types + [t]) == WithoutType(WithoutTypes(props, types), t)
    decreases |types|
  {
    if types != [] {
      assert (types + [t])[0] == types[0] && (types + [t])[1..] == types[1..] + [t];
      WithoutTypesSnoc(WithoutType(props, types[0]), types[1..], t);
    } else {
      assert [t][1..] == [];
    }
  }

  /** The `save-properties` request. */
  datatype SaveRequest = SaveRequest(id: string, lang: string, properties: seq<Pair>)

  /** The language a save names: none for a unit, the variant's language otherwise. */
  function SaveLanguage(currentType: string): (lang: string)
    ensures currentType == "TU" ==> lang == ""
    ensures currentType != "TU" ==> lang == currentType
  {
    if currentType == "TU" then "" else currentType
  }

  class Properties {
    /** The id of the unit being edited. */
    var currentId: string
    /** "TU" for a unit, or the language of the variant being edited. */
    var currentType: string
    var props: seq<Pair>

    /** The dialog before `set-unit-properties` arrives. */
    constructor()
      ensures currentId == "" && currentType == "" && props == []
    {
      currentId := "";
      currentType := "";
      props := [];
    }

    /** `setUnitProperties`: the dialog takes the unit or variant it is sent. */
    method SetUnitProperties(id: string, kind: string, list: seq<Pair>)
      modifies this
      ensures currentId == id && currentType == kind && props == list
    {
      currentId := id;
      currentType := kind;
      props := list;
    }

    /** `saveProperties`: the request that carries the list back, naming the
        variant's language, or no language for a unit. */
    method SaveProperties() returns (r: SaveRequest)
      ensures r.id == currentId && r.properties == props
      ensures r.lang == "" <==> currentType == "TU" || currentType == ""
      ensures r.lang != "" ==> r.lang == currentType
    {
      r := SaveRequest(currentId, SaveLanguage(currentType), props);
    }

    /** `setNewProperty`: the new pair goes at the end. */
    method SetNewProperty(name: string, value: string)
      modifies this`props
      ensures props == old(props) + [Pair(name, value)]
    {
      props := props + [Pair(name, value)];
    }

    /** `removeProperty`: every pair of type `t` goes, the others keep their order. */
    method RemoveProperty(t: string)
      modifies this`props
      ensures props == WithoutType(old(props), t)
    {
      var list := props;
      var copy: seq<Pair> := [];
      var i := 0;
      while i < |list|
        invariant 0 <= i <= |list|
        invariant copy == WithoutType(list[..i], t)
      {
        var pair := list[i];
        assert list[..i + 1] == list[..i] + [pair];
        WithoutTypeAppend(list[..i], [pair], t);
        assert WithoutType([pair], t) == (if pair.name == t then [] else [pair]);
        if pair.name != t {
          copy := copy + [pair];
        }
        i := i + 1;
      }
      assert list[..i] == list;
      props := copy;
    }

    /** `deleteProperties`: each checked row removes the pairs of its type. */
    method DeleteProperties(checked: seq<string>)
      modifies this`props
      ensures props == WithoutTypes(old(props), checked)
    {
      var i := 0;
      while i < |checked|
        invariant 0 <= i <= |checked|
        invariant props == WithoutTypes(old(props), checked[..i])
      {
        WithoutTypesSnoc(old(props), checked[..i], checked[i]);
        assert checked[..i + 1] == checked[..i] + [checked[i]];
        RemoveProperty(checked[i]);
        i := i + 1;
      }
      assert checked[..i] == checked;
    }
  }
}
