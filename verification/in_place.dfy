/** `Model.tex_escape` as the source runs it: it overwrites the slots of the list or the
    dictionary it is given, one at a time, and returns that same container. A nested list
    or dictionary is escaped by the recursive call and written back into its slot. */
module InPlace {
  import opened Wrappers
  import opened EscapeTable
  import opened Substitution
  import opened JsonEscape

  /** What the loop body writes into a slot holding `d`, with `regex` the compiled
      alternation: a string is substituted, a list or a dictionary goes through the
      recursive call, and `None` means the slot is left alone. */
  function Dispatch(regex: seq<string>, d: Json): (r: Option<Json>)
    requires AlternatesKeys(regex)
    ensures r.None? <==> d.JNull? || d.JBool? || d.JNum?
    ensures r.Some? ==> r.value == Escape(d)
  {
    match d
    case JStr(s) => Some(JStr(RegexSub(regex, s)))
    case JObj(_) => Some(TexEscape(d).value)
    case JArr(_) => Some(TexEscape(d).value)
    case _ => None
  }

  /** `re.compile('|'.join(re.escape(str(key)) for key in sorted(...)))`, with the
      alternatives kept as the literal strings they match. Sorting longest first leaves
      the one-character keys in the dictionary's order. */
  method CompileRegex() returns (regex: seq<string>)
    ensures regex == ConvKeys
    ensures LongestFirst(regex)
    ensures AlternatesKeys(regex)
  {
    regex := Pattern();
    PatternIsConvKeys();
    KeysShape();
  }

  /** The list branch: slots before `i` are escaped, slots from `i` on are untouched. */
  method TexEscapeList(data: array<Json>) returns (r: array<Json>)
    modifies data
    ensures r == data
    ensures data[..] == EscapeItems(old(data[..]))
  {
    var regex := CompileRegex();
    for i := 0 to data.Length
      invariant forall k :: 0 <= k < i ==> data[k] == Escape(old(data[k]))
      invariant forall k :: i <= k < data.Length ==> data[k] == old(data[k])
    {
      var e := Dispatch(regex, data[i]);
      if e.Some? {
        data[i] := e.value;
      }
    }
    r := data;
  }

  /** A Python dictionary, updated in place. */
  class JsonDict {
    var fields: map<string, Json>

    constructor (fields: map<string, Json>)
      ensures this.fields == fields
    {
      this.fields := fields;
    }

    /** The dictionary branch: every key is visited once and its value overwritten; the
        keys themselves never change. Which keys have been visited is all that matters,
        not the order of the visits. */
    method TexEscape() returns (r: JsonDict)
      modifies this
      ensures r == this
      ensures fields == EscapeFields(old(fields))
    {
      var regex := CompileRegex();
      var pending := fields.Keys;
      while pending != {}
        invariant fields.Keys == old(fields).Keys
        invariant pending <= fields.Keys
        invariant forall k :: k in fields && k !in pending ==> fields[k] == Escape(old(fields)[k])
        invariant forall k :: k in pending ==> fields[k] == old(fields)[k]
        decreases pending
      {
        var d :| d in pending;
        var e := Dispatch(regex, fields[d]);
        if e.Some? {
          fields := fields[d := e.value];
        }
        pending := pending - {d};
      }
      r := this;
    }
  }
}
