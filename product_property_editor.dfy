/**
 * The custom-property editor of the product dialog: a list of key/value
 * items kept beside the product's `profile` map, which the editor writes
 * as items are added, removed and edited.
 */
module ProductPropertyEditor {

  /** One custom key/value pair while it is being edited. */
  datatype PropertyItem = PropertyItem(key: string, value: string, isEditing: bool)

  /** The profile keys the parent form owns, left out of the custom list. */
  const DefaultKeys: seq<string> := ["type", "available", "backlog"]

  predicate HasKey(items: seq<PropertyItem>, key: string)
  {
    exists i :: 0 <= i < |items| && items[i].key == key
  }

  ghost predicate UniqueKeys(items: seq<PropertyItem>)
  {
    forall i, j :: 0 <= i < j < |items| ==> items[i].key != items[j].key
  }

  ghost predicate NoDuplicates(keys: seq<string>)
  {
    forall i, j :: 0 <= i < j < |keys| ==> keys[i] != keys[j]
  }

  /**
   * `ngOnInit`'s comprehension over the profile's entries, taken in the
   * order `order` lists the keys: one non-editing item per entry whose key
   * is not a default key.
   */
  function CustomProperties(order: seq<string>, profile: map<string, string>): (r: seq<PropertyItem>)
    requires forall k :: k in order ==> k in profile
    ensures |r| <= |order|
    ensures forall i :: 0 <= i < |r| ==>
      && r[i].key in order && r[i].key !in DefaultKeys
      && r[i].key in profile && r[i].value == profile[r[i].key]
      && !r[i].isEditing
    ensures forall k :: k in order && k !in DefaultKeys ==> HasKey(r, k)
  {
    if order == [] then []
    else
      var rest := CustomProperties(order[1..], profile);
      if order[0] in DefaultKeys then rest
      else
        var item := PropertyItem(order[0], profile[order[0]], false);
        HasKeyCons(item, rest);
        assert order == [order[0]] + order[1..];
        [item] + rest
  }

  lemma HasKeyCons(item: PropertyItem, rest: seq<PropertyItem>)
    ensures HasKey([item] + rest, item.key)
    ensures forall k :: HasKey(rest, k) ==> HasKey([item] + rest, k)
  {
    assert ([item] + rest)[0] == item;
    forall k | HasKey(rest, k)
      ensures HasKey([item] + rest, k)
    {
      var i :| 0 <= i < |rest| && rest[i].key == k;
      assert ([item] + rest)[i + 1] == rest[i];
    }
  }

  lemma ConsUnique(item: PropertyItem, rest: seq<PropertyItem>)
    requires UniqueKeys(rest) && !HasKey(rest, item.key)
    ensures UniqueKeys([item] + rest)
  {
    var r := [item] + rest;
    forall i, j | 0 <= i < j < |r|
      ensures r[i].key != r[j].key
    {
      assert r[j] == rest[j - 1];
      if i > 0 { assert r[i] == rest[i - 1]; }
    }
  }

  /** Distinct entry keys give distinct item keys. */
  lemma {:induction false} CustomPropertiesUnique(order: seq<string>, profile: map<string, string>)
    requires forall k :: k in order ==> k in profile
    requires NoDuplicates(order)
    ensures UniqueKeys(CustomProperties(order, profile))
  {
    if order != [] {
      var rest := CustomProperties(order[1..], profile);
      assert NoDuplicates(order[1..]) by {
        forall i, j | 0 <= i < j < |order[1..]|
          ensures order[1..][i] != order[1..][j]
        {
          assert order[1..][i] == order[i + 1] && order[1..][j] == order[j + 1];
        }
      }
      CustomPropertiesUnique(order[1..], profile);
      if order[0] !in DefaultKeys {
        assert !HasKey(rest, order[0]);
        ConsUnique(PropertyItem(order[0], profile[order[0]], false), rest);
      }
    }
  }

  /** Key `a` occurs in `order` before an occurrence of key `b`. */
  ghost predicate Before(order: seq<string>, a: string, b: string)
  {
    exists p, q :: 0 <= p < q < |order| && order[p] == a && order[q] == b
  }

  /** Of any two items, the earlier one's key sits earlier in `order`. */
  ghost predicate InEntryOrder(items: seq<PropertyItem>, order: seq<string>)
  {
    forall i, j :: 0 <= i < j < |items| ==> Before(order, items[i].key, items[j].key)
  }

  lemma BeforeTail(order: seq<string>, a: string, b: string)
    requires order != [] && Before(order[1..], a, b)
    ensures Before(order, a, b)
  {
    var p, q :| 0 <= p < q < |order[1..]| && order[1..][p] == a && order[1..][q] == b;
    assert order[p + 1] == a && order[q + 1] == b;
  }

  lemma BeforeHead(order: seq<string>, b: string)
    requires order != [] && b in order[1..]
    ensures Before(order, order[0], b)
  {
    var q :| 0 <= q < |order[1..]| && order[1..][q] == b;
    assert order[q + 1] == b;
  }

  lemma TailOrderKeepsOrder(items: seq<PropertyItem>, order: seq<string>)
    requires order != [] && InEntryOrder(items, order[1..])
    ensures InEntryOrder(items, order)
  {
    forall i, j | 0 <= i < j < |items|
      ensures Before(order, items[i].key, items[j].key)
    {
      BeforeTail(order, items[i].key, items[j].key);
    }
  }

  lemma ConsKeepsOrder(item: PropertyItem, rest: seq<PropertyItem>, order: seq<string>)
    requires order != [] && order[0] == item.key
    requires forall i :: 0 <= i < |rest| ==> rest[i].key in order[1..]
    requires InEntryOrder(rest, order)
    ensures InEntryOrder([item] + rest, order)
  {
    var r := [item] + rest;
    forall i, j | 0 <= i < j < |r|
      ensures Before(order, r[i].key, r[j].key)
    {
      assert r[j] == rest[j - 1];
      if i == 0 {
        BeforeHead(order, r[j].key);
      } else {
        assert r[i] == rest[i - 1];
      }
    }
  }

  /** `ngOnInit`'s items come in entry order. */
  lemma {:induction false} CustomPropertiesKeepOrder(order: seq<string>, profile: map<string, string>)
    requires forall k :: k in order ==> k in profile
    ensures InEntryOrder(CustomProperties(order, profile), order)
  {
    if order != [] {
      var rest := CustomProperties(order[1..], profile);
      CustomPropertiesKeepOrder(order[1..], profile);
      TailOrderKeepsOrder(rest, order);
      if order[0] !in DefaultKeys {
        ConsKeepsOrder(PropertyItem(order[0], profile[order[0]], false), rest, order);
      }
    }
  }

  /** `properties.filter(p => p.key !== key)`. */
  function Without(items: seq<PropertyItem>, key: string): (r: seq<PropertyItem>)
    ensures |r| <= |items|
    ensures forall p :: p in r <==> p in items && p.key != key
    ensures !HasKey(r, key)
  {
    if items == [] then []
    else if items[0].key == key then Without(items[1..], key)
    else [items[0]] + Without(items[1..], key)
  }

  /** Removing by key twice is removing it once. */
  lemma {:induction false} WithoutIdempotent(items: seq<PropertyItem>, key: string)
    ensures Without(Without(items, key), key) == Without(items, key)
  {
    if items != [] {
      WithoutIdempotent(items[1..], key);
    }
  }

  /** An item whose key is absent is left alone: removing it changes nothing. */
  lemma {:induction false} WithoutAbsent(items: seq<PropertyItem>, key: string)
    requires !HasKey(items, key)
    ensures Without(items, key) == items
  {
    if items != [] {
      assert items[0].key != key;
      assert !HasKey(items[1..], key);
      WithoutAbsent(items[1..], key);
      assert items == [items[0]] + items[1..];
    }
  }

  /** With unique keys, removing a present key drops exactly its one item; the rest keep their order. */
  lemma {:induction false} WithoutUniqueDropsOne(items: seq<PropertyItem>, j: nat)
    requires j < |items| && UniqueKeys(items)
    ensures Without(items, items[j].key) == items[..j] + items[j + 1..]
  {
    var key := items[j].key;
    if j == 0 {
      assert !HasKey(items[1..], key);
      WithoutAbsent(items[1..], key);
    } else {
      assert items[0].key != key;
      WithoutUniqueDropsOne(items[1..], j - 1);
      assert items[1..][j - 1] == items[j];
      assert items[1..][..j - 1] == items[1..j];
      assert items[1..][j..] == items[j + 1..];
      assert items[..j] == [items[0]] + items[1..j];
    }
  }

  lemma RemoveAtKeepsUnique(items: seq<PropertyItem>, j: nat)
    requires j < |items| && UniqueKeys(items)
    ensures UniqueKeys(items[..j] + items[j + 1..])
  {
    var r := items[..j] + items[j + 1..];
    forall a, b | 0 <= a < b < |r|
      ensures r[a].key != r[b].key
    {
      var a', b' := if a < j then a else a + 1, if b < j then b else b + 1;
      assert r[a] == items[a'] && r[b] == items[b'];
    }
  }

  lemma WithoutKeepsUnique(items: seq<PropertyItem>, key: string)
    requires UniqueKeys(items)
    ensures UniqueKeys(Without(items, key))
  {
    if HasKey(items, key) {
      var j :| 0 <= j < |items| && items[j].key == key;
      WithoutUniqueDropsOne(items, j);
      RemoveAtKeepsUnique(items, j);
    } else {
      WithoutAbsent(items, key);
    }
  }

  class PropertyEditor {
    /** The custom items shown in the editor. */
    var properties: seq<PropertyItem>
    /** The parent form's `profile` value. */
    var profile: map<string, string>
    /** The new-property form's two fields; "" is an empty or reset field. */
    var newKey: string
    var newValue: string

    /** Item keys are pairwise distinct and each is a key of the profile. */
    ghost predicate Valid()
      reads this
    {
      && UniqueKeys(properties)
      && forall i :: 0 <= i < |properties| ==> properties[i].key in profile
    }

    constructor (profile: map<string, string>)
      ensures Valid()
      ensures properties == [] && this.profile == profile
      ensures newKey == "" && newValue == ""
    {
      properties := [];
      this.profile := profile;
      newKey, newValue := "", "";
    }

    /**
     * `ngOnInit`: the items become the profile's non-default entries, in
     * entry order; `order` is that order (`Object.entries`).
     */
    method NgOnInit(order: seq<string>)
      requires forall k :: k in order <==> k in profile
      requires NoDuplicates(order)
      modifies this`properties
      ensures properties == CustomProperties(order, profile)
      ensures Valid()
    {
      properties := CustomProperties(order, profile);
      CustomPropertiesUnique(order, profile);
    }

    /**
     * `addProperty`: with a non-empty key and value and a key no item has,
     * appends one non-editing item, sets the key in the profile and clears
     * the form; otherwise changes nothing.
     */
    method AddProperty()
      requires Valid()
      modifies this
      ensures Valid()
      ensures var accepted := old(newKey) != "" && old(newValue) != "" && !HasKey(old(properties), old(newKey));
        if accepted then
          && properties == old(properties) + [PropertyItem(old(newKey), old(newValue), false)]
          && profile == old(profile)[old(newKey) := old(newValue)]
          && newKey == "" && newValue == ""
        else
          && properties == old(properties) && profile == old(profile)
          && newKey == old(newKey) && newValue == old(newValue)
    {
      if newKey != "" && newValue != "" && !HasKey(properties, newKey) {
        properties := properties + [PropertyItem(newKey, newValue, false)];
        profile := profile[newKey := newValue];
        newKey, newValue := "", "";
      }
    }

    /** `removeProperty`: drops every item with the key and deletes the key from the profile. */
    method RemoveProperty(prop: PropertyItem)
      requires Valid()
      modifies this`properties, this`profile
      ensures Valid()
      ensures properties == Without(old(properties), prop.key)
      ensures profile == old(profile) - {prop.key}
    {
      WithoutKeepsUnique(properties, prop.key);
      properties := Without(properties, prop.key);
      profile := profile - {prop.key};
    }

    /**
     * `toggleEdit` on item `i`: flips its editing flag; when editing ends,
     * the item's value is written to the profile.
     */
    method ToggleEdit(i: nat)
      requires Valid() && i < |properties|
      modifies this`properties, this`profile
      ensures Valid()
      ensures properties == old(properties)[i := old(properties[i]).(isEditing := !old(properties[i].isEditing))]
      ensures properties[i].isEditing ==> profile == old(profile)
      ensures !properties[i].isEditing ==> profile == old(profile)[properties[i].key := properties[i].value]
    {
      var prop := properties[i].(isEditing := !properties[i].isEditing);
      properties := properties[i := prop];
      if !prop.isEditing {
        profile := profile[prop.key := prop.value];
      }
    }

    /** `onValueBlur` on item `i`: while it is being edited, writes its value to the profile. */
    method OnValueBlur(i: nat)
      requires Valid() && i < |properties|
      modifies this`profile
      ensures Valid()
      ensures properties[i].isEditing ==> profile == old(profile)[properties[i].key := properties[i].value]
      ensures !properties[i].isEditing ==> profile == old(profile)
    {
      var prop := properties[i];
      if prop.isEditing {
        profile := profile[prop.key := prop.value];
      }
    }
  }

  /** `removeProperty` applied twice with the same item leaves the state one application leaves. */
  method RemovePropertyTwice(editor: PropertyEditor, prop: PropertyItem)
    requires editor.Valid()
    modifies editor
    ensures editor.Valid()
    ensures editor.properties == Without(old(editor.properties), prop.key)
    ensures editor.profile == old(editor.profile) - {prop.key}
    ensures editor.newKey == old(editor.newKey) && editor.newValue == old(editor.newValue)
  {
    editor.RemoveProperty(prop);
    WithoutIdempotent(old(editor.properties), prop.key);
    editor.RemoveProperty(prop);
  }
}
