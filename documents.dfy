/** JSON values and the locale documents (.arb files) they make up, as the
    merge sees them once `json.load` has parsed a file. */
module Documents {

  datatype Option<T> = None | Some(value: T)

  /** A parsed JSON value. Numbers are kept as their literal text: the merge
      only copies them. */
  datatype Json =
    | Null
    | Bool(b: bool)
    | Number(literal: string)
    | Str(s: string)
    | Arr(items: seq<Json>)
    | Obj(fields: map<string, Json>)

  /** A locale document: the top-level object of an .arb file, held as a
      Python dict, i.e. a map whose keys remember their insertion order. */
  datatype Doc = Doc(order: seq<string>, values: map<string, Json>)
  {
    /** The keys in `order` are distinct and are exactly the keys of `values`. */
    ghost predicate Valid() {
      && (forall i, j :: 0 <= i < j < |order| ==> order[i] != order[j])
      && (forall k :: k in values <==> k in order)
    }
  }

  const EmptyDoc: Doc := Doc([], map[])

  /** `d[key] = v` on a dict: a new key goes after all existing ones; an
      existing key keeps its place and takes the new value. */
  function Put(d: Doc, key: string, v: Json): (r: Doc)
    requires d.Valid()
    ensures r.Valid()
    ensures key in r.values && r.values[key] == v
    ensures forall k :: k in d.values && k != key ==> k in r.values && r.values[k] == d.values[k]
    ensures r.values.Keys == d.values.Keys + {key}
    ensures key in d.values ==> r.order == d.order
    ensures key !in d.values ==> r.order == d.order + [key]
  {
    if key in d.values then Doc(d.order, d.values[key := v])
    else Doc(d.order + [key], d.values[key := v])
  }

  /** Python's `sub in s` when both operands are strings: a substring test,
      `sub` starts at some position of `s`. */
  predicate Contains(s: string, sub: string)
    decreases |s|
  {
    sub <= s || (|s| > 0 && Contains(s[1..], sub))
  }

  /** A string cannot contain `sub` if it lacks one of `sub`'s characters. */
  lemma {:induction false} MissingCharRulesOut(s: string, sub: string, c: char)
    requires c in sub && c !in s
    ensures !Contains(s, sub)
    decreases |s|
  {
    var j :| 0 <= j < |sub| && sub[j] == c;
    if j < |s| {
      assert s[j] != c;
    }
    if |s| > 0 {
      assert forall x :: x in s[1..] ==> x in s;
      MissingCharRulesOut(s[1..], sub, c);
    }
  }

  /** `sub` occurs in `s` at position `i`. */
  lemma {:induction false} ContainsAt(s: string, sub: string, i: nat)
    requires i + |sub| <= |s| && s[i..i + |sub|] == sub
    ensures Contains(s, sub)
    decreases i
  {
    if i > 0 {
      assert s[1..][i - 1..i - 1 + |sub|] == s[i..i + |sub|];
      ContainsAt(s[1..], sub, i - 1);
    }
  }

  /** Conversely, a string that passes the substring test holds `sub` at
      some position. */
  lemma {:induction false} ContainsWitness(s: string, sub: string) returns (i: nat)
    requires Contains(s, sub)
    ensures i + |sub| <= |s| && s[i..i + |sub|] == sub
    decreases |s|
  {
    if sub <= s {
      i := 0;
    } else {
      var j := ContainsWitness(s[1..], sub);
      assert s[1..][j..j + |sub|] == s[j + 1..j + 1 + |sub|];
      i := j + 1;
    }
  }

  /** A key that names ARB metadata: it starts with '@'. */
  predicate IsMetadata(k: string) {
    |k| > 0 && k[0] == '@'
  }

  /** The sibling metadata key `@<key>` of a translation key. */
  function MetadataKey(key: string): (r: string)
    ensures IsMetadata(r) && r[1..] == key
  {
    "@" + key
  }
}
