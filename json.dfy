/**
 * JavaScript values as `JSON.parse` produces them and `JSON.stringify`
 * writes them. An object is an ordered list of members: the order is the
 * property insertion order, which is the order `JSON.stringify` writes.
 */
module JsonValues {
  import opened Wrappers

  datatype Json =
    | JNull
    | JBool(b: bool)
    | JNumber(n: real)
    | JString(s: string)
    | JArray(items: seq<Json>)
    | JObject(members: seq<Member>)

  type Member = (string, Json)

  /** JavaScript's ToBoolean on a parsed value: `null`, `false`, `0` and `""` are falsy. */
  predicate Truthy(v: Json)
  {
    match v
    case JNull => false
    case JBool(b) => b
    case JNumber(n) => n != 0.0
    case JString(s) => s != ""
    case JArray(_) => true
    case JObject(_) => true
  }

  /** Member names, in order. */
  function Keys(m: seq<Member>): (ks: seq<string>)
    ensures |ks| == |m|
    ensures forall i :: 0 <= i < |m| ==> ks[i] == m[i].0
  {
    if m == [] then [] else [m[0].0] + Keys(m[1..])
  }

  predicate DistinctKeys(m: seq<Member>)
  {
    forall i, j :: 0 <= i < j < |m| ==> m[i].0 != m[j].0
  }

  /**
   * Property read `obj[key]`: the value of the last member with that name,
   * since `JSON.parse` keeps the last of duplicated names; `None` stands for
   * `undefined`.
   */
  function Get(m: seq<Member>, key: string): (r: Option<Json>)
    ensures r.Some? <==> key in Keys(m)
    ensures r.Some? ==> (key, r.value) in m
  {
    if m == [] then None
    else if m[|m| - 1].0 == key then Some(m[|m| - 1].1)
    else
      var r := Get(m[..|m| - 1], key);
      KeysSnoc(m);
      r
  }

  lemma KeysSnoc(m: seq<Member>)
    requires m != []
    ensures Keys(m) == Keys(m[..|m| - 1]) + [m[|m| - 1].0]
  {
    var front := m[..|m| - 1];
    var whole, parts := Keys(m), Keys(front) + [m[|m| - 1].0];
    assert |whole| == |parts|;
    forall i | 0 <= i < |whole|
      ensures whole[i] == parts[i]
    {
      if i < |front| {
        assert parts[i] == Keys(front)[i] == front[i].0;
      }
    }
  }

  /**
   * Property assignment `obj[key] = value`: a new name is appended at the
   * end; an existing name keeps its place and takes the new value.
   */
  function Put(m: seq<Member>, key: string, value: Json): (r: seq<Member>)
    ensures key !in Keys(m) ==> r == m + [(key, value)]
    ensures key in Keys(m) ==> Keys(r) == Keys(m)
  {
    if m == [] then [(key, value)]
    else if m[0].0 == key then [(key, value)] + m[1..]
    else [m[0]] + Put(m[1..], key, value)
  }

  /** With distinct names, reading a member's name gives back its value. */
  lemma GetDistinct(m: seq<Member>, k: int)
    requires DistinctKeys(m) && 0 <= k < |m|
    ensures Get(m, m[k].0) == Some(m[k].1)
  {
    var r := Get(m, m[k].0);
    assert Keys(m)[k] == m[k].0;
    var i :| 0 <= i < |m| && m[i] == (m[k].0, r.value);
  }

  /** A member appended at the end is the one a read of its name finds. */
  lemma GetLast(m: seq<Member>, key: string, value: Json)
    ensures Get(m + [(key, value)], key) == Some(value)
  {
    var s := m + [(key, value)];
    assert s[|s| - 1] == (key, value);
  }

  /**
   * Reading from a member followed by `m`: the last occurrence in `m` when
   * there is one, else the leading member when it has that name.
   */
  lemma {:induction false} GetCons(x: Member, m: seq<Member>, key: string)
    ensures Get([x] + m, key)
         == if key in Keys(m) then Get(m, key) else if x.0 == key then Some(x.1) else None
    decreases |m|
  {
    var s := [x] + m;
    if m == [] {
      assert s[..|s| - 1] == [];
    } else {
      var front := m[..|m| - 1];
      assert s[..|s| - 1] == [x] + front;
      assert s[|s| - 1] == m[|m| - 1];
      KeysSnoc(m);
      if m[|m| - 1].0 != key {
        GetCons(x, front, key);
      }
    }
  }

  /** Assigning a name and reading it back gives the assigned value. */
  lemma {:induction false} PutGet(m: seq<Member>, key: string, value: Json)
    requires DistinctKeys(m)
    ensures Get(Put(m, key, value), key) == Some(value)
    decreases |m|
  {
    if m == [] {
      GetLast(m, key, value);
    } else if m[0].0 == key {
      var rest := m[1..];
      assert forall j :: 0 <= j < |rest| ==> Keys(rest)[j] != key by {
        forall j | 0 <= j < |rest| ensures Keys(rest)[j] != key {
          assert Keys(rest)[j] == m[j + 1].0;
        }
      }
      GetCons((key, value), rest, key);
    } else {
      var rest := m[1..];
      PutGet(rest, key, value);
      GetCons(m[0], Put(rest, key, value), key);
    }
  }

  /** Assigning one name leaves the reads of every other name unchanged. */
  lemma {:induction false} PutOthers(m: seq<Member>, key: string, value: Json, other: string)
    requires other != key
    ensures Get(Put(m, key, value), other) == Get(m, other)
    decreases |m|
  {
    if m == [] {
      GetCons((key, value), [], other);
      assert [(key, value)] + [] == [(key, value)];
    } else {
      var rest := m[1..];
      assert m == [m[0]] + rest;
      GetCons(m[0], rest, other);
      if m[0].0 == key {
        GetCons((key, value), rest, other);
      } else {
        PutOthers(rest, key, value, other);
        GetCons(m[0], Put(rest, key, value), other);
      }
    }
  }
}
