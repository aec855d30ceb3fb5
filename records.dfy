/** Shared shapes: optional values, results with an error message, JavaScript objects
    filled by successive `obj[key] = value` assignments, `Array.prototype.filter` and
    `Array.prototype.indexOf`. */
module Records {

  datatype Option<T> = None | Some(value: T)

  /** A value or the message of the error the JavaScript code throws. */
  datatype Result<T> = Ok(value: T) | Err(message: string)

  /** The keys assigned by a sequence of `obj[key] = value` statements. */
  function KeysOf<K, V>(kvs: seq<(K, V)>): set<K>
  {
    set i | 0 <= i < |kvs| :: kvs[i].0
  }

  /** The one key a plain object never gets as an own property from `obj[k] = v` with a
      string, number or boolean `v`: the assignment goes to the prototype setter, which
      ignores values that are not objects. */
  const ProtoKey := "__proto__"

  /** Runs `obj[k] = v` for each pair of `kvs` in order, starting from `m`; every value
      assigned is a string, number or boolean, so an assignment to `__proto__` does nothing. */
  function Assign<V>(m: map<string, V>, kvs: seq<(string, V)>): map<string, V>
    decreases |kvs|
  {
    if |kvs| == 0 then m
    else if kvs[0].0 == ProtoKey then Assign(m, kvs[1..])
    else Assign(m[kvs[0].0 := kvs[0].1], kvs[1..])
  }

  /** The assignments add exactly their keys to the object, except `__proto__`. */
  lemma {:induction false} AssignKeys<V>(m: map<string, V>, kvs: seq<(string, V)>)
    ensures Assign(m, kvs).Keys == m.Keys + (KeysOf(kvs) - {ProtoKey})
    decreases |kvs|
  {
    if |kvs| > 0 {
      if kvs[0].0 == ProtoKey {
        AssignKeys(m, kvs[1..]);
      } else {
        AssignKeys(m[kvs[0].0 := kvs[0].1], kvs[1..]);
      }
      assert KeysOf(kvs) == {kvs[0].0} + KeysOf(kvs[1..]) by {
        forall k | k in KeysOf(kvs) ensures k in {kvs[0].0} + KeysOf(kvs[1..]) {
          var i :| 0 <= i < |kvs| && kvs[i].0 == k;
          if i > 0 { assert kvs[1..][i - 1].0 == k; }
        }
        forall k | k in KeysOf(kvs[1..]) ensures k in KeysOf(kvs) {
          var i :| 0 <= i < |kvs[1..]| && kvs[1..][i].0 == k;
          assert kvs[i + 1].0 == k;
        }
      }
    }
  }

  /** The last assignment to a key other than `__proto__` is the one that sticks. */
  lemma {:induction false} AssignLastWins<V>(m: map<string, V>, kvs: seq<(string, V)>, j: int)
    requires 0 <= j < |kvs| && kvs[j].0 != ProtoKey
    requires forall l :: j < l < |kvs| ==> kvs[l].0 != kvs[j].0
    ensures kvs[j].0 in Assign(m, kvs) && Assign(m, kvs)[kvs[j].0] == kvs[j].1
    decreases |kvs|
  {
    if j == 0 {
      AssignUntouched(m[kvs[0].0 := kvs[0].1], kvs[1..], kvs[0].0);
    } else if kvs[0].0 == ProtoKey {
      AssignLastWins(m, kvs[1..], j - 1);
    } else {
      AssignLastWins(m[kvs[0].0 := kvs[0].1], kvs[1..], j - 1);
    }
  }

  /** A key no pair assigns keeps the value it started with. */
  lemma {:induction false} AssignUntouched<V>(m: map<string, V>, kvs: seq<(string, V)>, k: string)
    requires k in m
    requires forall l :: 0 <= l < |kvs| ==> kvs[l].0 != k
    ensures k in Assign(m, kvs) && Assign(m, kvs)[k] == m[k]
    decreases |kvs|
  {
    if |kvs| > 0 {
      if kvs[0].0 == ProtoKey {
        AssignUntouched(m, kvs[1..], k);
      } else {
        AssignUntouched(m[kvs[0].0 := kvs[0].1], kvs[1..], k);
      }
    }
  }

  /** `s.filter(keep)`: the items `keep` accepts, in their order. */
  function Filter<T>(keep: T -> bool, s: seq<T>): (r: seq<T>)
    ensures |r| <= |s|
    ensures forall i :: 0 <= i < |r| ==> keep(r[i])
  {
    if |s| == 0 then []
    else if keep(s[0]) then [s[0]] + Filter(keep, s[1..])
    else Filter(keep, s[1..])
  }

  /** Every kept item comes from the input. */
  lemma {:induction false} FilterKept<T>(keep: T -> bool, s: seq<T>, i: int)
    requires 0 <= i < |Filter(keep, s)|
    ensures Filter(keep, s)[i] in s
  {
    if !keep(s[0]) {
      FilterKept(keep, s[1..], i);
    } else if i > 0 {
      FilterKept(keep, s[1..], i - 1);
    }
  }

  /** The filter keeps order and multiplicity: the kept items of a concatenation are the
      kept items of each part, one after the other. */
  lemma {:induction false} FilterAppend<T>(keep: T -> bool, a: seq<T>, b: seq<T>)
    ensures Filter(keep, a + b) == Filter(keep, a) + Filter(keep, b)
  {
    if |a| > 0 {
      assert (a + b)[1..] == a[1..] + b;
      FilterAppend(keep, a[1..], b);
    } else {
      assert a + b == b;
    }
  }

  /** A single item is kept exactly when `keep` accepts it. */
  lemma FilterSingle<T>(keep: T -> bool, x: T)
    ensures Filter(keep, [x]) == if keep(x) then [x] else []
  {
    assert [x][1..] == [];
  }

  /** Nothing is kept exactly when `keep` rejects every item. */
  lemma {:induction false} FilterEmptyIff<T>(keep: T -> bool, s: seq<T>)
    ensures Filter(keep, s) == [] <==> forall i :: 0 <= i < |s| ==> !keep(s[i])
  {
    if |s| > 0 {
      FilterEmptyIff(keep, s[1..]);
      assert forall i :: 1 <= i < |s| ==> s[i] == s[1..][i - 1];
    }
  }

  /** Everything is kept when `keep` accepts every item. */
  lemma {:induction false} FilterKeepsAll<T>(keep: T -> bool, s: seq<T>)
    requires forall i :: 0 <= i < |s| ==> keep(s[i])
    ensures Filter(keep, s) == s
  {
    if |s| > 0 {
      FilterKeepsAll(keep, s[1..]);
      assert s == [s[0]] + s[1..];
    }
  }

  /** No value occurs twice. */
  predicate Distinct<T(==)>(s: seq<T>)
  {
    forall a, b :: 0 <= a < b < |s| ==> s[a] != s[b]
  }

  /** `s.indexOf(x)`: the first position holding `x`, or None for JavaScript's -1. */
  function IndexOf<T(==)>(s: seq<T>, x: T): (r: Option<nat>)
    ensures r.Some? ==> r.value < |s| && s[r.value] == x && x !in s[..r.value]
    ensures r.None? <==> x !in s
  {
    if |s| == 0 then None
    else if s[0] == x then Some(0)
    else
      match IndexOf(s[1..], x)
      case None => None
      case Some(i) =>
        assert s[..i + 1] == [s[0]] + s[1..][..i];
        Some(i + 1)
  }
}
