/** A JSON document as Python's `json.loads` hands it back, and the three
    Python operations the reply parser applies to such a value: the `in`
    operator, `dict.get(key, default)` and `str.join`. Each either yields a
    value or raises; the raise is reported as a `PyError`. */
module JsonValue {
  import opened Wrappers
  import opened PyStr

  /** A decoded JSON value. An object keeps its members in document order,
      repeated keys included; the Python `dict` it stands for maps each key
      to the value of its LAST member and iterates the keys in the order of
      their FIRST member. A number keeps its source text: no step of the
      parser looks at its value. */
  datatype Json =
    | JNull
    | JBool(b: bool)
    | JNumber(literal: string)
    | JString(s: string)
    | JArray(items: seq<Json>)
    | JObject(members: seq<(string, Json)>)

  /** The exceptions the parser's Python operations can raise on a value of
      the wrong type. */
  datatype PyError = TypeError | AttributeError

  /** Some member of the object has key `key` (Python's `key in d`). */
  predicate HasKey(members: seq<(string, Json)>, key: string) {
    exists i :: 0 <= i < |members| && members[i].0 == key
  }

  /** Member `i` is the last one with key `key`. */
  predicate IsLastMember(members: seq<(string, Json)>, key: string, i: int) {
    && 0 <= i < |members|
    && members[i].0 == key
    && forall k :: i < k < |members| ==> members[k].0 != key
  }

  /** The value the Python `dict` built from `members` holds under `key`:
      that of the last member with that key. */
  function Lookup(members: seq<(string, Json)>, key: string): (r: Option<Json>)
    ensures r.None? <==> !HasKey(members, key)
    ensures forall i :: IsLastMember(members, key, i) ==> r == Some(members[i].1)
    decreases |members|
  {
    if |members| == 0 then None
    else if members[|members| - 1].0 == key then Some(members[|members| - 1].1)
    else Lookup(members[..|members| - 1], key)
  }

  /** The keys of the Python `dict` built from `members`, each once, in the
      order `for k in d` visits them. */
  function KeysInOrder(members: seq<(string, Json)>): (r: seq<string>)
    ensures forall k :: k in r <==> HasKey(members, k)
    ensures forall a, b :: 0 <= a < b < |r| ==> r[a] != r[b]
    decreases |members|
  {
    if |members| == 0 then []
    else
      var init := members[..|members| - 1];
      var keys := KeysInOrder(init);
      var k := members[|members| - 1].0;
      assert forall k' :: HasKey(init, k') ==> HasKey(members, k') by {
        forall k' | HasKey(init, k') ensures HasKey(members, k') {
          var i :| 0 <= i < |init| && init[i].0 == k';
          assert members[i].0 == k';
        }
      }
      if k in keys then keys else keys + [k]
  }

  /** A JSON array of the given strings. */
  function StringArray(strs: seq<string>): (r: Json)
    ensures r.JArray? && |r.items| == |strs|
    ensures forall i :: 0 <= i < |strs| ==> r.items[i] == JString(strs[i])
  {
    JArray(seq(|strs|, i requires 0 <= i < |strs| => JString(strs[i])))
  }

  /** Different lists of strings make different JSON arrays. */
  lemma StringArrayInjective(a: seq<string>, b: seq<string>)
    requires StringArray(a) == StringArray(b)
    ensures a == b
  {
    forall i | 0 <= i < |a| ensures a[i] == b[i] {
      assert StringArray(a).items[i] == StringArray(b).items[i];
    }
  }

  /** The strings of a list whose elements are all strings; `None` if some
      element is not a string. */
  function AllStrings(items: seq<Json>): (r: Option<seq<string>>)
    ensures r.Some? <==> forall i :: 0 <= i < |items| ==> items[i].JString?
    ensures r.Some? ==> StringArray(r.value) == JArray(items)
    decreases |items|
  {
    if |items| == 0 then Some([])
    else if !items[0].JString? then None
    else
      match AllStrings(items[1..])
      case None => None
      case Some(rest) =>
        var strs := [items[0].s] + rest;
        assert StringArray(strs).items == items by {
          assert forall i :: 1 <= i < |items| ==> items[i] == items[1..][i - 1];
        }
        Some(strs)
  }

  /** The one-character strings that iterating over a Python `str` yields. */
  function Characters(s: string): (r: seq<string>)
    ensures |r| == |s|
    ensures forall i :: 0 <= i < |s| ==> r[i] == [s[i]]
  {
    seq(|s|, i requires 0 <= i < |s| => [s[i]])
  }

  /** Python's `key in v` for a string `key`: key lookup on a dict, element
      search on a list, substring search on a str; on a number, a boolean
      or None the operator raises TypeError. */
  function In(key: string, v: Json): (r: Result<bool, PyError>)
    ensures r == Failure(TypeError) <==> (v.JNull? || v.JBool? || v.JNumber?)
    ensures v.JObject? ==> r == Success(Lookup(v.members, key).Some?)
    ensures v.JArray? ==> r.Success?
    ensures v.JArray? ==>
              (r == Success(true) <==> exists i :: 0 <= i < |v.items| && v.items[i] == JString(key))
    ensures v.JString? ==> r == Success(IndexOf(v.s, key).Some?)
  {
    match v
    case JObject(members) => Success(HasKey(members, key))
    case JArray(items) => Success(JString(key) in items)
    case JString(s) => Success(Contains(s, key))
    case _ => Failure(TypeError)
  }

  /** Python's `v.get(key, default)`: only a dict has `get`. */
  function Get(v: Json, key: string, default: Json): (r: Result<Json, PyError>)
    ensures r.Failure? <==> !v.JObject?
    ensures r.Failure? ==> r.error == AttributeError
    ensures v.JObject? && HasKey(v.members, key) ==> Some(r.value) == Lookup(v.members, key)
    ensures v.JObject? && !HasKey(v.members, key) ==> r.value == default
  {
    match v
    case JObject(members) =>
      (match Lookup(members, key)
       case Some(x) => Success(x)
       case None => Success(default))
    case _ => Failure(AttributeError)
  }

  /** Python's `sep.join(v)`: `v` is iterated and every item must be a str.
      A list of strings joins its elements, a str joins its characters, a
      dict joins its keys; anything else raises TypeError. */
  function JoinValue(sep: string, v: Json): (r: Result<string, PyError>)
    ensures r.Failure? ==> r.error == TypeError
    ensures forall strs :: v == StringArray(strs) ==> r == Success(Join(strs, sep))
    ensures v.JArray? && (exists i :: 0 <= i < |v.items| && !v.items[i].JString?) ==> r.Failure?
    ensures v.JString? ==> r == Success(Join(Characters(v.s), sep))
    ensures v.JObject? ==> r == Success(Join(KeysInOrder(v.members), sep))
    ensures v.JNull? || v.JBool? || v.JNumber? ==> r.Failure?
  {
    match v
    case JArray(items) =>
      (match AllStrings(items)
       case Some(strs) =>
         assert forall other :: v == StringArray(other) ==> other == strs by {
           forall other | v == StringArray(other) ensures other == strs {
             StringArrayInjective(other, strs);
           }
         }
         Success(Join(strs, sep))
       case None => Failure(TypeError))
    case JString(s) => Success(Join(Characters(s), sep))
    case JObject(members) => Success(Join(KeysInOrder(members), sep))
    case _ => Failure(TypeError)
  }
}
