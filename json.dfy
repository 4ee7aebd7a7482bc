/**
 * Decoded JSON values as the Python scripts see them (what `json.load`
 * returns), with the dict and iteration operations the scripts use.
 * Objects keep their keys in insertion order, like Python dicts; a decoded
 * object never repeats a key, and lookups use the first entry.
 */
module JsonModel {

  import opened Wrappers

  datatype Json =
    | JNull
    | JBool(b: bool)
    | JInt(n: int)
    | JString(str: string)
    | JArray(items: seq<Json>)
    | JObject(fields: seq<(string, Json)>)

  /** Python truthiness: None, False, 0, "", [] and {} are false. */
  predicate Truthy(j: Json) {
    match j
    case JNull => false
    case JBool(b) => b
    case JInt(n) => n != 0
    case JString(s) => s != []
    case JArray(a) => a != []
    case JObject(f) => f != []
  }

  /** `key in d` */
  predicate HasKey(fields: seq<(string, Json)>, key: string) {
    exists i :: 0 <= i < |fields| && fields[i].0 == key
  }

  /** `d[key]`, or None where Python raises KeyError. */
  function Get(fields: seq<(string, Json)>, key: string): (r: Option<Json>)
    ensures r.Some? <==> HasKey(fields, key)
    ensures r.Some? ==> (key, r.value) in fields
  {
    if fields == [] then None
    else if fields[0].0 == key then Some(fields[0].1)
    else
      var r := Get(fields[1..], key);
      assert HasKey(fields, key) ==> HasKey(fields[1..], key) by {
        if HasKey(fields, key) {
          var i :| 0 <= i < |fields| && fields[i].0 == key;
          assert fields[1..][i - 1].0 == key;
        }
      }
      r
  }

  /** `d.get(key, default)` */
  function GetOr(fields: seq<(string, Json)>, key: string, default: Json): (r: Json)
    ensures !HasKey(fields, key) ==> r == default
    ensures HasKey(fields, key) ==> (key, r) in fields
  {
    match Get(fields, key)
    case Some(v) => v
    case None => default
  }

  /** `d.pop(key, None)` on a dict: the entry goes, every other entry stays in its place (see PopAppend). */
  function Pop(fields: seq<(string, Json)>, key: string): (r: seq<(string, Json)>)
    ensures !HasKey(r, key)
    ensures forall e :: e in r <==> e in fields && e.0 != key
    ensures forall other :: other != key ==> Get(r, other) == Get(fields, other)
  {
    if fields == [] then []
    else if fields[0].0 == key then Pop(fields[1..], key)
    else [fields[0]] + Pop(fields[1..], key)
  }

  /** Popping works entry by entry, so the entries that stay keep their order. */
  lemma {:induction false} PopAppend(a: seq<(string, Json)>, b: seq<(string, Json)>, key: string)
    ensures Pop(a + b, key) == Pop(a, key) + Pop(b, key)
    decreases |a|
  {
    if a == [] {
      assert a + b == b;
    } else {
      assert (a + b)[0] == a[0] && (a + b)[1..] == a[1..] + b;
      PopAppend(a[1..], b, key);
    }
  }

  /** One entry goes exactly when it has the key. */
  lemma PopOne(e: (string, Json), key: string)
    ensures Pop([e], key) == if e.0 == key then [] else [e]
  {
    assert [e][1..] == [];
  }

  /** What `for x in v` yields on a decoded value, or None where Python raises TypeError. */
  function Iterate(v: Json): (r: Option<seq<Json>>)
    ensures v.JArray? ==> r == Some(v.items)
    ensures v.JString? ==> r.Some? && |r.value| == |v.str| && forall x :: x in r.value ==> x.JString?
    ensures v.JObject? ==> r.Some? && |r.value| == |v.fields| && forall x :: x in r.value ==> x.JString?
    ensures (v.JNull? || v.JBool? || v.JInt?) ==> r.None?
  {
    match v
    case JArray(a) => Some(a)
    case JString(s) => Some(CharStrings(s))
    case JObject(f) => Some(Keys(f))
    case _ => None
  }

  /** The one-character strings of s, in order. */
  function CharStrings(s: string): (r: seq<Json>)
    ensures |r| == |s| && forall k :: 0 <= k < |s| ==> r[k] == JString([s[k]])
  {
    if s == [] then [] else [JString([s[0]])] + CharStrings(s[1..])
  }

  /** The keys of a dict, in order. */
  function Keys(fields: seq<(string, Json)>): (r: seq<Json>)
    ensures |r| == |fields| && forall k :: 0 <= k < |fields| ==> r[k] == JString(fields[k].0)
  {
    if fields == [] then [] else [JString(fields[0].0)] + Keys(fields[1..])
  }
}
