/** The `NBT.Tag` enum: thirteen kinds whose id is the declaration ordinal. */
module Tags {
  import opened Wrappers

  datatype Tag =
    | END | BYTE | SHORT | INT | LONG | FLOAT | DOUBLE
    | BYTE_ARRAY | STRING | LIST | COMPOUND | INT_ARRAY | LONG_ARRAY

  /** `Tag.values()`, in declaration order. */
  const AllTags: seq<Tag> :=
    [END, BYTE, SHORT, INT, LONG, FLOAT, DOUBLE, BYTE_ARRAY, STRING, LIST, COMPOUND, INT_ARRAY, LONG_ARRAY]

  /** `getID()`: the position of the tag in `Tag.values()`. */
  function Id(t: Tag): (id: nat)
    ensures id < |AllTags| && AllTags[id] == t
    ensures t == END <==> id == 0
  {
    match t
    case END => 0
    case BYTE => 1
    case SHORT => 2
    case INT => 3
    case LONG => 4
    case FLOAT => 5
    case DOUBLE => 6
    case BYTE_ARRAY => 7
    case STRING => 8
    case LIST => 9
    case COMPOUND => 10
    case INT_ARRAY => 11
    case LONG_ARRAY => 12
  }

  /** Ids are distinct, so a tag is recovered from its id. */
  lemma IdInjective(a: Tag, b: Tag)
    ensures Id(a) == Id(b) <==> a == b
  {
  }

  /** `Tag.values()[b]`: indexing with anything outside 0..12 throws. */
  function FromId(b: int): (r: Option<Tag>)
    ensures r.Some? <==> 0 <= b < |AllTags|
    ensures r.Some? ==> Id(r.value) == b
  {
    if 0 <= b < |AllTags| then Some(AllTags[b]) else None
  }

  /** Every tag survives the trip through its id. */
  lemma FromIdOfId(t: Tag)
    ensures FromId(Id(t)) == Some(t)
  {
  }

  /** `name()`: the enum constant's identifier. */
  function Name(t: Tag): (s: string)
    ensures |s| > 0 && s[0] != '_'
    ensures forall i :: 0 <= i < |s| ==> 'A' <= s[i] <= 'Z' || s[i] == '_'
  {
    match t
    case END => "END"
    case BYTE => "BYTE"
    case SHORT => "SHORT"
    case INT => "INT"
    case LONG => "LONG"
    case FLOAT => "FLOAT"
    case DOUBLE => "DOUBLE"
    case BYTE_ARRAY => "BYTE_ARRAY"
    case STRING => "STRING"
    case LIST => "LIST"
    case COMPOUND => "COMPOUND"
    case INT_ARRAY => "INT_ARRAY"
    case LONG_ARRAY => "LONG_ARRAY"
  }

  /** `getTypeName()`: the prefix `Tag_` before the enum name; distinct tags get distinct names. */
  function TypeName(t: Tag): (s: string)
    ensures |s| > 4 && s[..4] == "Tag_" && s[4..] == Name(t)
  {
    "Tag_" + Name(t)
  }

  lemma TypeNameInjective(a: Tag, b: Tag)
    ensures TypeName(a) == TypeName(b) <==> a == b
  {
    if TypeName(a) == TypeName(b) {
      assert Name(a) == TypeName(a)[4..] == TypeName(b)[4..] == Name(b);
      NameInjective(a, b);
    }
  }

  lemma NameInjective(a: Tag, b: Tag)
    requires Name(a) == Name(b)
    ensures a == b
  {
  }
}
