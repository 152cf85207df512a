/** PHP values and PHP arrays, as far as the resolver uses them.

    A PHP array is an ordered association list: every key occurs once,
    assigning to a new key appends an entry at the end, assigning to an
    existing key replaces its value where it stands, and nothing is ever
    renumbered. */
module Php {
  import opened Wrappers

  /** An array key. PHP stores a string that spells a canonical decimal
      integer ("7", "-3") as that integer, so a `StrKey` never holds one. */
  datatype Key = IntKey(i: int) | StrKey(s: string)

  predicate IsDigit(c: char) { '0' <= c <= '9' }

  /** The strings PHP turns into integer keys (platform integer range aside). */
  predicate IsCanonicalInt(s: string) {
    || s == "0"
    || (|s| >= 1 && '1' <= s[0] <= '9' && forall j | 1 <= j < |s| :: IsDigit(s[j]))
    || (|s| >= 2 && s[0] == '-' && '1' <= s[1] <= '9' && forall j | 2 <= j < |s| :: IsDigit(s[j]))
  }

  predicate CanonicalKey(k: Key) { k.StrKey? ==> !IsCanonicalInt(k.s) }

  /** The PHP values the model needs: scalars, list-shaped arrays (such as
      the `[$integer, $test]` a tested method returns) and objects, which
      carry their class name and an identity. */
  datatype Value =
    | Null
    | Bool(b: bool)
    | Int(n: int)
    | Str(s: string)
    | List(items: seq<Value>)
    | Object(cls: string, id: nat)

  /** A thrown exception: its class and message. */
  datatype Exception = Exception(cls: string, message: string)

  datatype Entry = Entry(key: Key, value: Value)

  predicate WellFormed(a: seq<Entry>) {
    && (forall i | 0 <= i < |a| :: CanonicalKey(a[i].key))
    && (forall i, j | 0 <= i < j < |a| :: a[i].key != a[j].key)
  }

  /** A PHP array: entries in insertion order, each key at most once. */
  type PhpArray = a: seq<Entry> | WellFormed(a) witness []

  /** `array_key_exists($k, $a)`: true even when the stored value is null. */
  predicate KeyExists(a: seq<Entry>, k: Key) {
    exists i | 0 <= i < |a| :: a[i].key == k
  }

  /** `$a[$k]` for a key that may be missing. */
  function Lookup(a: seq<Entry>, k: Key): (r: Option<Value>)
    ensures r.Some? <==> KeyExists(a, k)
  {
    if a == [] then None
    else if a[0].key == k then Some(a[0].value)
    else
      var r := Lookup(a[1..], k);
      assert KeyExists(a, k) <==> KeyExists(a[1..], k) by {
        if KeyExists(a, k) {
          var i :| 0 <= i < |a| && a[i].key == k;
          assert a[1..][i - 1].key == k;
        }
        if KeyExists(a[1..], k) {
          var i :| 0 <= i < |a[1..]| && a[1..][i].key == k;
          assert a[i + 1].key == k;
        }
      }
      r
  }

  /** In a well-formed array every entry is what a lookup of its key finds. */
  lemma {:induction false} LookupAt(a: PhpArray, i: nat)
    requires i < |a|
    ensures Lookup(a, a[i].key) == Some(a[i].value)
  {
    if i > 0 {
      var b: PhpArray := a[1..];
      LookupAt(b, i - 1);
    }
  }

  /** The values of an array in insertion order: the positional argument list
      `call_user_func_array` and `invokeArgs` build from it (keys are ignored). */
  function Values(a: seq<Entry>): seq<Value> {
    seq(|a|, i requires 0 <= i < |a| => a[i].value)
  }

  /** `func_get_args()`: the received arguments as a list keyed 0, 1, 2, ... */
  function ListOf(vs: seq<Value>): (a: PhpArray)
    ensures |a| == |vs|
    ensures forall i | 0 <= i < |a| :: a[i] == Entry(IntKey(i), vs[i])
    ensures Values(a) == vs
  {
    seq(|vs|, i requires 0 <= i < |vs| => Entry(IntKey(i), vs[i]))
  }

  /** `$a[$k] = $v`: replaces the value of an existing key where it stands,
      or appends a new entry at the end. */
  function Store(a: PhpArray, k: Key, v: Value): (r: PhpArray)
    requires CanonicalKey(k)
    ensures KeyExists(a, k) ==> |r| == |a|
    ensures KeyExists(a, k) ==> forall i | 0 <= i < |a| ::
      r[i] == if a[i].key == k then Entry(k, v) else a[i]
    ensures !KeyExists(a, k) ==> r == a + [Entry(k, v)]
  {
    if KeyExists(a, k) then
      var r := seq(|a|, i requires 0 <= i < |a| => if a[i].key == k then Entry(k, v) else a[i]);
      assert forall i | 0 <= i < |a| :: r[i].key == a[i].key;
      r
    else
      a + [Entry(k, v)]
  }

  /** After a store the key maps to the stored value and every other key to
      what it mapped to before. */
  lemma {:induction false} StoreLookup(a: PhpArray, k: Key, v: Value, k': Key)
    requires CanonicalKey(k)
    ensures Lookup(Store(a, k, v), k') == if k' == k then Some(v) else Lookup(a, k')
  {
    var r := Store(a, k, v);
    if KeyExists(a, k') {
      var i :| 0 <= i < |a| && a[i].key == k';
      assert r[i].key == k';
      LookupAt(r, i);
      LookupAt(a, i);
    } else if k' == k {
      assert r[|a|].key == k';
      LookupAt(r, |a|);
    } else {
      assert !KeyExists(r, k') by {
        forall i | 0 <= i < |r| ensures r[i].key != k' {
        }
      }
    }
  }

  /** PHP's conversion of a string to bool: only "" and "0" are false. */
  predicate Truthy(s: string) {
    s != "" && s != "0"
  }
}
