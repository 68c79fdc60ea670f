/**
 * A PHP stdClass object as the payment callback fills it: named
 * properties in the order they were first assigned, each holding one of
 * the scalar values the callback stores. Assigning an existing property
 * keeps its position; unset() removes it; reading a missing one gives null.
 */
module PhpObject {
  import opened Wrappers
  import opened PhpStrings
  import opened PhpNumeric

  /** The property values the callback stores. */
  datatype Value =
    | Null                   // what reading a property that was never assigned yields
    | Text(text: string)
    | Int(number: int)
    | Hundredths(count: int) // the PHP number count / 100, as `$amount / 100` computes it

  type Props = seq<(string, Value)>

  /** Property names, in order. */
  function Keys(p: Props): (keys: seq<string>)
    ensures |keys| == |p|
    ensures forall i :: 0 <= i < |p| ==> keys[i] == p[i].0
  {
    if |p| == 0 then [] else [p[0].0] + Keys(p[1..])
  }

  /** No property name occurs twice. */
  predicate UniqueKeys(p: Props) {
    forall i, j :: 0 <= i < j < |p| ==> p[i].0 != p[j].0
  }

  /** The value of property `key`, if it is set. */
  function Get(p: Props, key: string): (r: Option<Value>)
    ensures r.None? <==> key !in Keys(p)
    ensures r.Some? ==> exists i :: 0 <= i < |p| && p[i] == (key, r.value)
  {
    if |p| == 0 then None
    else if p[0].0 == key then Some(p[0].1)
    else
      var r := Get(p[1..], key);
      assert Keys(p) == [p[0].0] + Keys(p[1..]);
      if r.Some? then
        var i :| 0 <= i < |p[1..]| && p[1..][i] == (key, r.value);
        assert p[i + 1] == (key, r.value);
        r
      else r
  }

  /** `$object->key`: the property's value, or null when it was never assigned. */
  function Read(p: Props, key: string): Value {
    match Get(p, key)
    case None => Null
    case Some(v) => v
  }

  /** `$object->key = v`: overwrite in place when the property exists, append it otherwise. */
  function Set(p: Props, key: string, v: Value): (r: Props)
    ensures Keys(r) == if key in Keys(p) then Keys(p) else Keys(p) + [key]
  {
    if |p| == 0 then [(key, v)]
    else
      assert Keys(p) == [p[0].0] + Keys(p[1..]);
      if p[0].0 == key then
        var r := [(key, v)] + p[1..];
        assert Keys(r) == [key] + Keys(p[1..]);
        r
      else
        var rest := Set(p[1..], key, v);
        var r := [p[0]] + rest;
        assert Keys(r) == [p[0].0] + Keys(rest);
        r
  }

  /** After an assignment the property reads as the assigned value and every other one is unchanged. */
  lemma {:induction false} SetGet(p: Props, key: string, v: Value, k: string)
    ensures Get(Set(p, key, v), k) == if k == key then Some(v) else Get(p, k)
  {
    if |p| > 0 && p[0].0 != key {
      var r := Set(p, key, v);
      assert r[1..] == Set(p[1..], key, v);
      SetGet(p[1..], key, v, k);
    } else if |p| > 0 {
      assert Set(p, key, v)[1..] == p[1..];
    }
  }

  /** An assignment never duplicates a property name. */
  lemma SetUnique(p: Props, key: string, v: Value)
    requires UniqueKeys(p)
    ensures UniqueKeys(Set(p, key, v))
  {
    var r := Set(p, key, v);
    var keys := Keys(r);
    if key in Keys(p) {
      assert forall i :: 0 <= i < |r| ==> r[i].0 == keys[i] == Keys(p)[i] == p[i].0;
    } else {
      assert forall i :: 0 <= i < |p| ==> r[i].0 == keys[i] == Keys(p)[i] == p[i].0;
      assert r[|p|].0 == keys[|p|] == key;
    }
  }

  /** `unset($object->key)`: every other property keeps its value and its place. */
  function Unset(p: Props, key: string): (r: Props)
    ensures key !in Keys(r)
    ensures forall i :: 0 <= i < |r| ==> r[i] in p
    ensures key !in Keys(p) ==> r == p
  {
    if |p| == 0 then []
    else
      var rest := Unset(p[1..], key);
      assert Keys(p) == [p[0].0] + Keys(p[1..]);
      if p[0].0 == key then rest
      else
        var r := [p[0]] + rest;
        assert Keys(r) == [p[0].0] + Keys(rest);
        r
  }

  /** After unset() the property is gone and every other one reads as before. */
  lemma {:induction false} UnsetGet(p: Props, key: string, k: string)
    ensures Get(Unset(p, key), k) == if k == key then None else Get(p, k)
  {
    if |p| > 0 {
      UnsetGet(p[1..], key, k);
      if p[0].0 != key {
        assert Unset(p, key)[1..] == Unset(p[1..], key);
      }
    }
  }

  /** How PHP converts the value to a string: null is empty, a number prints in decimal. */
  function Render(v: Value): string {
    match v
    case Null => ""
    case Text(s) => s
    case Int(i) => IntToString(i)
    case Hundredths(n) => HundredthsText(n)
  }

  /** PHP's empty() on the value. */
  predicate IsEmpty(v: Value) {
    match v
    case Null => true
    case Text(s) => PhpEmpty(s)
    case Int(i) => i == 0
    case Hundredths(n) => n == 0
  }
}
