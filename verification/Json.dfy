/** Parsed JSON values, and the source's recursive comparison of them. */
module Json {

  /** The order of an object's keys is not represented. */
  datatype Value =
    | Null
    | Bool(b: bool)
    | Num(n: int)
    | Str(s: string)
    | Arr(items: seq<Value>)
    | Obj(fields: map<string, Value>)

  /** deepStructuralEqual: arrays in order, objects key set by key set, scalars strictly. */
  predicate DeepEqual(a: Value, b: Value)
    decreases a
  {
    if a.Arr? || b.Arr? then
      && a.Arr? && b.Arr? && |a.items| == |b.items|
      && forall i :: 0 <= i < |a.items| ==> DeepEqual(a.items[i], b.items[i])
    else if a.Obj? && b.Obj? then
      && |a.fields.Keys| == |b.fields.Keys|
      && forall k :: k in a.fields.Keys ==> k in b.fields && DeepEqual(a.fields[k], b.fields[k])
    else a == b
  }

  lemma SameSizeSubset<T>(a: set<T>, b: set<T>)
    requires a <= b && |a| == |b|
    ensures a == b
  {
    assert b == a + (b - a) && |b| == |a| + |b - a|;
  }

  /** The comparison decides equality of JSON values. */
  lemma DeepEqualIsEquality(a: Value, b: Value)
    ensures DeepEqual(a, b) <==> a == b
    decreases a
  {
    if a.Arr? && b.Arr? {
      forall i | 0 <= i < |a.items| && i < |b.items|
        ensures DeepEqual(a.items[i], b.items[i]) <==> a.items[i] == b.items[i]
      {
        DeepEqualIsEquality(a.items[i], b.items[i]);
      }
    } else if a.Obj? && b.Obj? {
      forall k | k in a.fields && k in b.fields
        ensures DeepEqual(a.fields[k], b.fields[k]) <==> a.fields[k] == b.fields[k]
      {
        DeepEqualIsEquality(a.fields[k], b.fields[k]);
      }
      if DeepEqual(a, b) {
        SameSizeSubset(a.fields.Keys, b.fields.Keys);
        assert a.fields == b.fields;
      }
    }
  }

  // ---- Paths into a settings container ------------------------------------

  predicate Has(v: Value, key: string) {
    v.Obj? && key in v.fields
  }

  /** The array at `v.hooks[event]`, or an empty one. */
  function Groups(v: Value, event: string): seq<Value> {
    if Has(v, "hooks") && Has(v.fields["hooks"], event) && v.fields["hooks"].fields[event].Arr?
    then v.fields["hooks"].fields[event].items else []
  }

  /** The handlers of one matcher group. */
  function Handlers(group: Value): seq<Value> {
    if Has(group, "hooks") && group.fields["hooks"].Arr? then group.fields["hooks"].items else []
  }

  const PRE := "PreToolUse"
  const POST := "PostToolUse"

  /** validateSettingsShape: `hooks` is an object if present, and its PreToolUse an array if present. */
  predicate ValidShape(v: Value) {
    && v.Obj?
    && ("hooks" in v.fields ==> v.fields["hooks"].Obj?)
    && ("hooks" in v.fields && PRE in v.fields["hooks"].fields ==> v.fields["hooks"].fields[PRE].Arr?)
  }

  /** `v` with `hooks.PreToolUse` set, creating what is missing. */
  function WithPre(v: Value, pre: seq<Value>): Value
    requires ValidShape(v)
  {
    var hooks := if "hooks" in v.fields then v.fields["hooks"].fields else map[];
    Obj(v.fields["hooks" := Obj(hooks[PRE := Arr(pre)])])
  }

  /** `v` with an existing `hooks.PostToolUse` replaced. */
  function WithPost(v: Value, post: seq<Value>): Value
    requires ValidShape(v) && Has(v, "hooks") && Has(v.fields["hooks"], POST)
  {
    Obj(v.fields["hooks" := Obj(v.fields["hooks"].fields[POST := Arr(post)])])
  }

  /** Outside the two event lists nothing differs. */
  ghost predicate SameElsewhere(v: Value, w: Value)
    requires ValidShape(v) && ValidShape(w)
  {
    && (forall k :: k != "hooks" ==> (k in v.fields <==> k in w.fields))
    && (forall k :: k != "hooks" && k in v.fields && k in w.fields ==> v.fields[k] == w.fields[k])
    && (forall k :: k != PRE && k != POST ==> (HooksHas(v, k) <==> HooksHas(w, k)))
    && (forall k :: k != PRE && k != POST && HooksHas(v, k) && HooksHas(w, k) ==>
          v.fields["hooks"].fields[k] == w.fields["hooks"].fields[k])
  }

  predicate HooksHas(v: Value, key: string) {
    Has(v, "hooks") && Has(v.fields["hooks"], key)
  }

  lemma WithPreKeeps(v: Value, pre: seq<Value>)
    requires ValidShape(v)
    ensures var w := WithPre(v, pre);
            && ValidShape(w) && Groups(w, PRE) == pre && Groups(w, POST) == Groups(v, POST)
            && SameElsewhere(v, w) && HooksHas(w, PRE)
            && (HooksHas(w, POST) <==> HooksHas(v, POST))
  {
  }

  lemma SameElsewhereChain(u: Value, v: Value, w: Value)
    requires ValidShape(u) && ValidShape(v) && ValidShape(w) && SameElsewhere(u, v) && SameElsewhere(v, w)
    ensures SameElsewhere(u, w)
  {
  }

  lemma WithPostKeeps(v: Value, post: seq<Value>)
    requires ValidShape(v) && HooksHas(v, POST)
    ensures var w := WithPost(v, post);
            && ValidShape(w) && Groups(w, POST) == post && Groups(w, PRE) == Groups(v, PRE)
            && SameElsewhere(v, w) && HooksHas(w, POST)
  {
  }
}
