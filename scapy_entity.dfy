/** `scripts/scapy_entity.py`: the entities of the spaCy pipeline. Python's
    subclasses `Mention` and `Candidate` inherit the fields of `Entity`; here
    each class declares them itself. */
module ScapyEntity {
  import opened Wrappers
  import opened Strings

  /** A named entity with the type label the recogniser gave it. */
  class Entity {
    var name: string
    var nerLabel: Option<string>

    constructor (name: string)
      ensures this.name == name && nerLabel == None
    {
      this.name := name;
      nerLabel := None;
    }
  }

  const MENTION_PREFIX := "Entity____  NAME: "
  const WARC_ID_SEPARATOR := "  WARC_ID: "
  const NER_LABEL_SEPARATOR := "  LABEL: "

  /** An entity as it occurs in one WARC record. */
  class Mention {
    var name: string
    var nerLabel: Option<string>
    var warcId: string
    var recordMentions: Option<seq<string>>
    var bestCandidate: Candidate?

    constructor (name: string, warcId: string)
      ensures this.name == name && this.warcId == warcId
      ensures nerLabel == None && recordMentions == None && bestCandidate == null
    {
      this.name := name;
      nerLabel := None;
      this.warcId := warcId;
      recordMentions := None;
      bestCandidate := null;
    }

    /** `__str__`: the name, the record id and the type label behind fixed
        captions. Whenever the name and the record id hold no `:`, the three
        fields can be read back from the text. */
    function ToString(): (r: string)
      reads this
      ensures StartsWith(r, MENTION_PREFIX)
      ensures ':' !in name && ':' !in warcId ==>
        Parse3(MENTION_PREFIX, WARC_ID_SEPARATOR, NER_LABEL_SEPARATOR, r)
          == Some((name, warcId, Show(nerLabel)))
    {
      var r := Format3(MENTION_PREFIX, WARC_ID_SEPARATOR, NER_LABEL_SEPARATOR, name, warcId, Show(nerLabel));
      assert r[..|MENTION_PREFIX|] == MENTION_PREFIX;
      if ':' !in name && ':' !in warcId then
        assert WARC_ID_SEPARATOR[9] == ':' && ':' !in WARC_ID_SEPARATOR[..9];
        assert NER_LABEL_SEPARATOR[7] == ':' && ':' !in NER_LABEL_SEPARATOR[..7];
        Format3RoundTrip(MENTION_PREFIX, WARC_ID_SEPARATOR, NER_LABEL_SEPARATOR, name, warcId, Show(nerLabel), 9, 7);
        r
      else r
    }
  }

  /** A knowledge-base entity that a mention may refer to, with what the
      linker learns about it. Everything but the name starts as `None`. */
  class Candidate {
    var name: string
    var nerLabel: Option<string>
    var freebaseId: Option<string>
    var freebaseLabel: Option<set<Option<string>>>
    var kbAbstract: Option<seq<string>>
    var kbNouns: Option<seq<string>>
    var similarityScore: Option<real>

    constructor (name: string)
      ensures this.name == name && nerLabel == None
      ensures freebaseId == None && freebaseLabel == None
      ensures kbAbstract == None && kbNouns == None && similarityScore == None
    {
      this.name := name;
      nerLabel := None;
      freebaseId := None;
      freebaseLabel := None;
      kbAbstract := None;
      kbNouns := None;
      similarityScore := None;
    }
  }

  /** A new mention prints with `None` for its type label. */
  method NewMentionString(name: string, warcId: string) returns (text: string)
    ensures text == MENTION_PREFIX + name + WARC_ID_SEPARATOR + warcId + NER_LABEL_SEPARATOR + "None"
  {
    var m := new Mention(name, warcId);
    text := m.ToString();
  }
}
