/** The tree walk of `Model.tex_escape` on a value that `json.load` produced: string
    leaves are escaped, lists and objects are walked and every other scalar is kept. */
module JsonEscape {
  import opened Wrappers
  import opened EscapeTable
  import opened Substitution

  /** A JSON value. Numbers are only ever passed through, so their payload is opaque. */
  datatype Json =
    | JNull
    | JBool(b: bool)
    | JNum(n: int)
    | JStr(s: string)
    | JArr(items: seq<Json>)
    | JObj(fields: map<string, Json>)

  /** The `TypeError`s Python raises when the top-level value is not a container: the
      `else` branch iterates the value and indexes it with what it yields. */
  datatype EscapeError =
    | NotIterable                 // a number, a boolean or null
    | StringIndicesMustBeIntegers // a non-empty string, indexed by its own characters

  /** What one slot of a list or an object becomes: a string is escaped, a list or an
      object is walked recursively, anything else is left as it is. */
  function Escape(j: Json): (r: Json)
    ensures r.JStr? <==> j.JStr?
    ensures r.JArr? <==> j.JArr?
    ensures r.JObj? <==> j.JObj?
    ensures j.JStr? ==> |r.s| >= |j.s|
    ensures j.JArr? ==> |r.items| == |j.items|
    ensures j.JObj? ==> r.fields.Keys == j.fields.Keys
    ensures !(j.JStr? || j.JArr? || j.JObj?) ==> r == j
    decreases j, 1
  {
    match j
    case JStr(s) => JStr(EscapeString(s))
    case JArr(items) => JArr(EscapeItems(items))
    case JObj(fields) => JObj(EscapeFields(fields))
    case _ => j
  }

  /** The list branch: element `i` of the result is element `i` escaped. */
  function EscapeItems(items: seq<Json>): (r: seq<Json>)
    ensures |r| == |items|
    decreases JArr(items), 0
  {
    seq(|items|, i requires 0 <= i < |items| => Escape(items[i]))
  }

  /** The dictionary branch: the same keys, each value escaped; keys are not escaped. */
  function EscapeFields(fields: map<string, Json>): (r: map<string, Json>)
    ensures r.Keys == fields.Keys
    decreases JObj(fields), 0
  {
    map k | k in fields :: Escape(fields[k])
  }

  /** `tex_escape(data)` on the value `json.load` returns. A list or an object is escaped.
      Any other value reaches the `else` branch, which iterates it: the empty string
      yields nothing and comes back unchanged, a non-empty string fails when indexed by
      one of its characters, and a number, a boolean or null is not iterable. */
  function TexEscape(data: Json): (r: Result<Json, EscapeError>)
    ensures r.Ok? <==> data.JArr? || data.JObj? || data == JStr("")
    ensures r.Ok? ==> r.value == Escape(data)
    ensures r == Err(NotIterable) <==> data.JNull? || data.JBool? || data.JNum?
  {
    match data
    case JArr(items) => Ok(JArr(EscapeItems(items)))
    case JObj(fields) => Ok(JObj(EscapeFields(fields)))
    case JStr(s) => if s == [] then Ok(data) else Err(StringIndicesMustBeIntegers)
    case _ => Err(NotIterable)
  }

  /** Two values of the same shape: the same constructors at the same places, the same list
      lengths, the same object keys and the same numbers, booleans and nulls; only the
      text of strings may differ. */
  ghost predicate SameShape(a: Json, b: Json)
  {
    match a
    case JStr(_) => b.JStr?
    case JArr(xs) =>
      b.JArr? && |xs| == |b.items| &&
      forall i :: 0 <= i < |xs| ==> SameShape(xs[i], b.items[i])
    case JObj(fs) =>
      b.JObj? && fs.Keys == b.fields.Keys &&
      forall k :: k in fs ==> SameShape(fs[k], b.fields[k])
    case _ => b == a
  }

  /** Every string leaf of the value is plain text. */
  ghost predicate AllPlain(j: Json)
  {
    match j
    case JStr(s) => IsPlain(s)
    case JArr(xs) => forall i :: 0 <= i < |xs| ==> AllPlain(xs[i])
    case JObj(fs) => forall k :: k in fs ==> AllPlain(fs[k])
    case _ => true
  }

  /** Every string leaf of `b` is the escape of the string at the same place in `a`. */
  ghost predicate LeavesEscaped(a: Json, b: Json)
    requires SameShape(a, b)
  {
    match a
    case JStr(s) => b.s == EscapeString(s)
    case JArr(xs) => forall i :: 0 <= i < |xs| ==> LeavesEscaped(xs[i], b.items[i])
    case JObj(fs) => forall k :: k in fs ==> LeavesEscaped(fs[k], b.fields[k])
    case _ => true
  }

  /** Escaping keeps the shape of the tree at every depth (list lengths and order, object
      keys, and every number, boolean and null), and it changes string leaves only by
      escaping each of them. */
  lemma {:induction false} EscapeKeepsShape(j: Json)
    ensures SameShape(j, Escape(j))
    ensures LeavesEscaped(j, Escape(j))
  {
    match j
    case JArr(xs) =>
      forall i | 0 <= i < |xs|
        ensures SameShape(xs[i], Escape(j).items[i])
        ensures LeavesEscaped(xs[i], Escape(j).items[i])
      {
        EscapeKeepsShape(xs[i]);
      }
    case JObj(fs) =>
      forall k | k in fs
        ensures SameShape(fs[k], Escape(j).fields[k])
        ensures LeavesEscaped(fs[k], Escape(j).fields[k])
      {
        EscapeKeepsShape(fs[k]);
      }
    case _ =>
  }

  /** A value comes back unchanged exactly when none of its strings holds a special
      character. */
  lemma {:induction false} EscapeIdentity(j: Json)
    ensures Escape(j) == j <==> AllPlain(j)
  {
    match j
    case JStr(s) =>
      EscapeStringIdentity(s);
    case JArr(xs) =>
      forall i | 0 <= i < |xs|
        ensures Escape(xs[i]) == xs[i] <==> AllPlain(xs[i])
      {
        EscapeIdentity(xs[i]);
      }
      if Escape(j) == j {
        forall i | 0 <= i < |xs| ensures AllPlain(xs[i]) {
          assert EscapeItems(xs)[i] == xs[i];
        }
      }
      if AllPlain(j) {
        assert EscapeItems(xs) == xs;
      }
    case JObj(fs) =>
      forall k | k in fs
        ensures Escape(fs[k]) == fs[k] <==> AllPlain(fs[k])
      {
        EscapeIdentity(fs[k]);
      }
      if Escape(j) == j {
        forall k | k in fs ensures AllPlain(fs[k]) {
          assert EscapeFields(fs)[k] == fs[k];
        }
      }
      if AllPlain(j) {
        assert EscapeFields(fs) == fs;
      }
    case _ =>
  }

  /** Escaping a tree loses nothing: different values have different escapes. */
  lemma {:induction false} EscapeInjective(a: Json, b: Json)
    requires Escape(a) == Escape(b)
    ensures a == b
  {
    match a
    case JStr(s) =>
      EscapeStringInjective(s, b.s);
    case JArr(xs) =>
      var ys := b.items;
      forall i | 0 <= i < |xs| ensures xs[i] == ys[i] {
        assert EscapeItems(xs)[i] == EscapeItems(ys)[i];
        EscapeInjective(xs[i], ys[i]);
      }
    case JObj(fs) =>
      var gs := b.fields;
      forall k | k in fs ensures fs[k] == gs[k] {
        assert EscapeFields(fs)[k] == EscapeFields(gs)[k];
        EscapeInjective(fs[k], gs[k]);
      }
    case _ =>
  }

  /** `{"name": "100% done"}` becomes `{"name": "100\% done"}`. */
  lemma NameExample()
    ensures TexEscape(JObj(map["name" := JStr("100%" + " done")]))
      == Ok(JObj(map["name" := JStr("100\\%" + " done")]))
  {
    PercentDone();
    var fs := map["name" := JStr("100%" + " done")];
    assert EscapeFields(fs) == map["name" := JStr("100\\%" + " done")];
  }

  /** `{"tags": ["a_b", "c&d"]}` becomes `{"tags": ["a\_b", "c\&d"]}`. */
  lemma TagsExample()
    ensures TexEscape(JObj(map["tags" := JArr([JStr("a_b"), JStr("c&d")])]))
      == Ok(JObj(map["tags" := JArr([JStr("a\\_b"), JStr("c\\&d")])]))
  {
    var items := [JStr("a_b"), JStr("c&d")];
    UnderscoreAndAmpersand();
    assert EscapeItems(items) == [JStr("a\\_b"), JStr("c\\&d")];
    var fs := map["tags" := JArr(items)];
    assert EscapeFields(fs) == map["tags" := JArr([JStr("a\\_b"), JStr("c\\&d")])];
  }
}
