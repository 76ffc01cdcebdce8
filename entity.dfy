/** `scripts/entity.py`: the knowledge-base entity a search result becomes. */
module Entity {
  import opened Wrappers
  import opened Strings

  const ENTITY_PREFIX := "Entity____  NAME: "
  const ID_SEPARATOR := " , ID: "
  const LABEL_SEPARATOR := " , LABEL: "

  /** A named entity with the Freebase id and the set of labels the search
      found for it; both start as `None`, and callers fill them in. */
  class Entity {
    var name: string
    var freebaseId: Option<string>
    var freebaseLabel: Option<set<Option<string>>>

    constructor (name: string)
      ensures this.name == name
      ensures freebaseId == None && freebaseLabel == None
    {
      this.name := name;
      freebaseId := None;
      freebaseLabel := None;
    }

    /** The text of the label field: `None`, or the set as `showLabels`
        writes it (Python leaves the order of a set's elements open). */
    function LabelText(showLabels: set<Option<string>> -> string): (r: string)
      reads this
    {
      match freebaseLabel
      case None => "None"
      case Some(labels) => showLabels(labels)
    }

    /** `__str__`: the name, the id and the labels behind fixed captions.
        Whenever the name and the id hold no `:`, the three fields can be
        read back from the text. */
    function ToString(showLabels: set<Option<string>> -> string): (r: string)
      reads this
      ensures StartsWith(r, ENTITY_PREFIX)
      ensures ':' !in name && ':' !in Show(freebaseId) ==>
        Parse3(ENTITY_PREFIX, ID_SEPARATOR, LABEL_SEPARATOR, r)
          == Some((name, Show(freebaseId), LabelText(showLabels)))
    {
      var r := Format3(ENTITY_PREFIX, ID_SEPARATOR, LABEL_SEPARATOR, name, Show(freebaseId), LabelText(showLabels));
      assert r[..|ENTITY_PREFIX|] == ENTITY_PREFIX;
      if ':' !in name && ':' !in Show(freebaseId) then
        assert ID_SEPARATOR[5] == ':' && ':' !in ID_SEPARATOR[..5];
        assert LABEL_SEPARATOR[8] == ':' && ':' !in LABEL_SEPARATOR[..8];
        Format3RoundTrip(ENTITY_PREFIX, ID_SEPARATOR, LABEL_SEPARATOR, name, Show(freebaseId), LabelText(showLabels), 5, 8);
        r
      else r
    }
  }

  /** A new entity prints with `None` for its id and its labels. */
  method NewEntityString(name: string, showLabels: set<Option<string>> -> string) returns (text: string)
    ensures text == ENTITY_PREFIX + name + ID_SEPARATOR + "None" + LABEL_SEPARATOR + "None"
  {
    var e := new Entity(name);
    text := e.ToString(showLabels);
  }
}
