/** utils/structutils: the external name of a struct field, read from its
    tags. Go finds the field by reflection on its address; here a struct is
    an explicit table of fields, each with its name and its tags. */
module StructUtils {
  import opened Text

  /** One key:"value" pair of a Go struct tag. */
  datatype Tag = Tag(key: string, value: string)

  datatype Field = Field(name: string, tags: seq<Tag>)

  /** reflect.StructTag.Get: the value of the first pair with this key, or
      "" when there is none. */
  function TagGet(tags: seq<Tag>, key: string): (v: string)
    ensures v != "" ==> exists i :: 0 <= i < |tags| && tags[i].key == key && tags[i].value == v
    ensures (forall i :: 0 <= i < |tags| ==> tags[i].key != key) ==> v == ""
    ensures forall i :: 0 <= i < |tags| && tags[i].key == key && (forall j :: 0 <= j < i ==> tags[j].key != key) ==>
      v == tags[i].value
  {
    if |tags| == 0 then ""
    else if tags[0].key == key then tags[0].value
    else TagGet(tags[1..], key)
  }

  /** The tag a field is named by: mapstructure first, then yaml, then json. */
  function PreferredTag(f: Field): string
  {
    var m := TagGet(f.tags, "mapstructure");
    if m != "" then m
    else
      var y := TagGet(f.tags, "yaml");
      if y != "" then y else TagGet(f.tags, "json")
  }

  /** The preferred tag of the last field called `name` (the Go loop does not
      stop at a match), or "" when no field has that name. */
  function ChosenTag(fields: seq<Field>, name: string): string
  {
    if |fields| == 0 then ""
    else if fields[|fields| - 1].name == name then PreferredTag(fields[|fields| - 1])
    else ChosenTag(fields[..|fields| - 1], name)
  }

  /** strings.Split(s, ",")[0]: the part of `s` before its first comma. */
  function BeforeComma(s: string): (r: string)
    ensures |r| <= |s| && r == s[..|r|]
    ensures ',' !in r
    ensures |r| < |s| ==> s[|r|] == ','
  {
    if |s| == 0 || s[0] == ',' then "" else [s[0]] + BeforeComma(s[1..])
  }

  /** The external name of field `name` of the struct described by `fields`. */
  function FieldTagValue(fields: seq<Field>, name: string): string
  {
    BeforeComma(ChosenTag(fields, name))
  }

  /** GetFieldTagValue: walks every field, and for the one asked about falls
      back from mapstructure to yaml to json; then keeps the text before
      the first comma. */
  method GetFieldTagValue(fields: seq<Field>, name: string) returns (r: string)
    ensures r == FieldTagValue(fields, name)
  {
    var tagValue := "";
    var i := 0;
    while i < |fields|
      invariant 0 <= i <= |fields|
      invariant tagValue == ChosenTag(fields[..i], name)
    {
      assert fields[..i + 1][..i] == fields[..i];
      if fields[i].name == name {
        tagValue := TagGet(fields[i].tags, "mapstructure");
        if tagValue == "" {
          tagValue := TagGet(fields[i].tags, "yaml");
        }
        if tagValue == "" {
          tagValue := TagGet(fields[i].tags, "json");
        }
      }
      i := i + 1;
    }
    assert fields[..i] == fields;
    r := BeforeComma(tagValue);
  }

  /** A later tag kind is consulted only when the earlier ones are empty. */
  lemma {:induction false} TagPrecedence(f: Field)
    ensures TagGet(f.tags, "mapstructure") != "" ==> PreferredTag(f) == TagGet(f.tags, "mapstructure")
    ensures TagGet(f.tags, "mapstructure") == "" && TagGet(f.tags, "yaml") != "" ==>
      PreferredTag(f) == TagGet(f.tags, "yaml")
    ensures TagGet(f.tags, "mapstructure") == "" && TagGet(f.tags, "yaml") == "" ==>
      PreferredTag(f) == TagGet(f.tags, "json")
  {
  }

  /** A field no entry of the table is called by, or one with no tags,
      has the empty name. */
  lemma {:induction false} UnknownOrUntaggedFieldIsUnnamed(fields: seq<Field>, name: string)
    requires forall i :: 0 <= i < |fields| && fields[i].name == name ==> fields[i].tags == []
    ensures FieldTagValue(fields, name) == ""
  {
    if |fields| > 0 && fields[|fields| - 1].name != name {
      UnknownOrUntaggedFieldIsUnnamed(fields[..|fields| - 1], name);
    }
  }

  /** When several fields share a name, the last one decides. */
  lemma {:induction false} LastNamedFieldDecides(fields: seq<Field>, name: string, k: nat)
    requires k < |fields| && fields[k].name == name
    requires forall i :: k < i < |fields| ==> fields[i].name != name
    ensures ChosenTag(fields, name) == PreferredTag(fields[k])
    decreases |fields|
  {
    if k < |fields| - 1 {
      var init := fields[..|fields| - 1];
      assert init[k] == fields[k];
      assert forall i :: k < i < |init| ==> init[i] == fields[i];
      LastNamedFieldDecides(init, name, k);
    }
  }

  /** A field whose only tag is a json one is named by that tag, up to its
      first comma, when no later field shares its name. */
  lemma JsonOnlyFieldNamed(fields: seq<Field>, name: string, k: nat, value: string)
    requires k < |fields| && fields[k] == Field(name, [Tag("json", value)])
    requires forall i :: k < i < |fields| ==> fields[i].name != name
    ensures FieldTagValue(fields, name) == BeforeComma(value)
  {
    LastNamedFieldDecides(fields, name, k);
  }

  /** A tag value without options is used whole. */
  lemma {:induction false} NoOptionsKeptWhole(s: string)
    requires ',' !in s
    ensures BeforeComma(s) == s
  {
    if |s| > 0 {
      assert s[0] in s;
      assert forall c :: c in s[1..] ==> c in s;
      NoOptionsKeptWhole(s[1..]);
      assert s == [s[0]] + s[1..];
    }
  }

  /** Options after the first comma are dropped. */
  lemma {:induction false} OptionsDropped(name: string, options: string)
    requires ',' !in name
    ensures BeforeComma(name + "," + options) == name
    decreases |name|
  {
    var s := name + "," + options;
    if |name| == 0 {
      assert s[0] == ',';
    } else {
      assert name[0] in name;
      assert forall c :: c in name[1..] ==> c in name;
      assert s[0] == name[0] && s[1..] == name[1..] + "," + options;
      OptionsDropped(name[1..], options);
      assert name == [name[0]] + name[1..];
    }
  }

  lemma PasswordTagOptionsDropped()
    ensures BeforeComma("password,omitempty") == "password"
  {
    assert "password,omitempty" == "password" + "," + "omitempty";
    OptionsDropped("password", "omitempty");
  }
}
