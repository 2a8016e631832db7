/** Shared vocabulary of the evidence vault model: optional values, identifiers and clock readings. */
module Base {

  /** A value that may be absent (JavaScript's `undefined`/`null`, SQL's NULL). */
  datatype Option<+T> = None | Some(value: T) {
    function GetOr(default: T): T {
      match this
      case Some(v) => v
      case None => default
    }
  }

  /** Identifiers handed out by the store's fresh-id oracle (the source uses random UUIDs). */
  type Id = nat

  /** A clock reading in milliseconds since the epoch (`Date.now()`; ISO-8601 strings order the same way). */
  type Timestamp = int

  function Max(a: int, b: int): int {
    if a < b then b else a
  }

  function Min(a: int, b: int): int {
    if a < b then a else b
  }

  /** The position where `x` first occurs in `s`. */
  function FirstIndex<T(==)>(s: seq<T>, x: T): (k: nat)
    requires x in s
    ensures k < |s| && s[k] == x
  {
    if s[0] == x then 0
    else
      assert s == [s[0]] + s[1..];
      FirstIndex(s[1..], x) + 1
  }

  /** No earlier position holds `x`. */
  lemma {:induction false} FirstIndexMinimal<T>(s: seq<T>, x: T)
    requires x in s
    ensures x !in s[..FirstIndex(s, x)]
    decreases |s|
  {
    if s[0] != x {
      assert s == [s[0]] + s[1..];
      FirstIndexMinimal(s[1..], x);
      var k := FirstIndex(s[1..], x);
      assert s[..k + 1] == [s[0]] + s[1..][..k];
    }
  }

  /** Appending does not move a first occurrence. */
  lemma FirstIndexPrefix<T>(a: seq<T>, b: seq<T>, x: T)
    requires x in a
    ensures FirstIndex(a + b, x) == FirstIndex(a, x)
  {
    var k := FirstIndex(a, x);
    var k' := FirstIndex(a + b, x);
    FirstIndexMinimal(a, x);
    FirstIndexMinimal(a + b, x);
    assert (a + b)[k] == x;
    assert (a + b)[..k] == a[..k];
  }

  /** No element occurs twice. */
  ghost predicate Distinct<T>(s: seq<T>) {
    forall i, j :: 0 <= i < j < |s| ==> s[i] != s[j]
  }
}
