/** A single struct field tag entry, `key:"name,option0,option1"`. */
module Tags {

  /**
   * `field` is the name of the struct field the tag is attached to; the
   * accessors `Key` and `Name` of the Go type are the destructors `key` and
   * `name`.
   */
  datatype Tag = Tag(field: string, key: string, name: string, options: seq<string>) {

    /** `slices.Contains(options, option)`. */
    predicate Contains(option: string)
      ensures Contains(option) <==> exists i | 0 <= i < |options| :: options[i] == option
    {
      option in options
    }

    /** The tag name is the ignore marker `-`. */
    predicate IsIgnored() {
      name == "-"
    }

    /** The tag name, unless it is empty or ignored, in which case the field name. */
    function NameOrField(): (r: string)
      ensures r == name || r == field
      ensures r == field <== IsIgnored() || name == ""
      ensures r == name <== !IsIgnored() && name != ""
    {
      if name != "" && name != "-" then name else field
    }

    /** The tag holds no key, name or options; the field name does not matter. */
    predicate IsZero() {
      key == "" && name == "" && |options| == 0
    }
  }

  /** The tag a lookup returns for a missing key. */
  function Missing(field: string): Tag {
    Tag(field, "", "", [])
  }

  /** A tag is zero exactly when it is the missing-key tag of its own field. */
  lemma ZeroIsMissing(t: Tag)
    ensures t.IsZero() <==> t == Missing(t.field)
  {
  }

  /** A zero tag contains no option and names its field. */
  lemma ZeroTagProperties(t: Tag, option: string)
    requires t.IsZero()
    ensures !t.Contains(option)
    ensures !t.IsIgnored()
    ensures t.NameOrField() == t.field
  {
  }
}
