/**
 * Plain JavaScript objects whose property values are strings, kept as the
 * list of their own properties in creation order, and the order in which
 * `Object.keys` and `for…in` visit those properties: array-index keys first,
 * in ascending numeric order, then every other key in creation order
 * (OrdinaryOwnPropertyKeys in the ECMAScript specification).
 */
module JsObjects {
  import opened Wrappers
  import Sorting

  /** An object's own properties, in the order they were created. */
  type Props = seq<(string, string)>

  /** An object never holds two properties with the same key. */
  predicate WellFormed(o: Props)
  {
    forall i, j :: 0 <= i < j < |o| ==> o[i].0 != o[j].0
  }

  predicate Distinct(ks: seq<string>)
  {
    forall i, j :: 0 <= i < j < |ks| ==> ks[i] != ks[j]
  }

  /** The keys in creation order. */
  function CreationOrder(o: Props): (ks: seq<string>)
    ensures |ks| == |o|
    ensures forall i :: 0 <= i < |o| ==> ks[i] == o[i].0
  {
    if o == [] then [] else [o[0].0] + CreationOrder(o[1..])
  }

  /** Property lookup: `o[k]`, with `None` for `undefined`. */
  function Get(o: Props, k: string): (r: Option<string>)
    ensures r.Some? <==> k in CreationOrder(o)
  {
    if o == [] then None
    else if o[0].0 == k then Some(o[0].1)
    else Get(o[1..], k)
  }

  /**
   * The one key an assignment on an ordinary object does not create: while
   * the object has no own property of that name, `o["__proto__"] = v` reaches
   * the setter inherited from `Object.prototype`, which ignores a value that
   * is not an object.
   */
  const ProtoKey: string := "__proto__"

  /**
   * Assignment `o[k] = v` of a string value on an ordinary object: an existing
   * property keeps its place and takes the new value, a new one goes last,
   * and `__proto__` that is not yet an own property changes nothing.
   */
  function Put(o: Props, k: string, v: string): (r: Props)
    ensures k == ProtoKey && k !in CreationOrder(o) ==> r == o
    ensures k != ProtoKey && k !in CreationOrder(o) ==> r == o + [(k, v)]
    ensures k in CreationOrder(o) ==> CreationOrder(r) == CreationOrder(o) && Get(r, k) == Some(v)
    ensures forall k' :: k' != k ==> Get(r, k') == Get(o, k')
    ensures |r| == if k in CreationOrder(o) || k == ProtoKey then |o| else |o| + 1
  {
    if k == ProtoKey && k !in CreationOrder(o) then o
    else if o == [] then [(k, v)]
    else
      assert CreationOrder(o) == [o[0].0] + CreationOrder(o[1..]);
      if o[0].0 == k then
        var r := [(k, v)] + o[1..];
        assert r[1..] == o[1..];
        r
      else
        var t := Put(o[1..], k, v);
        var r := [o[0]] + t;
        assert r[1..] == t;
        r
  }

  /** An assignment never makes two properties with the same key. */
  lemma PutKeepsWellFormed(o: Props, k: string, v: string)
    requires WellFormed(o)
    ensures WellFormed(Put(o, k, v))
  {
    var r := Put(o, k, v);
    if k in CreationOrder(o) {
      forall i, j | 0 <= i < j < |r| ensures r[i].0 != r[j].0 {
        assert r[i].0 == CreationOrder(r)[i] == o[i].0;
        assert r[j].0 == CreationOrder(r)[j] == o[j].0;
      }
    } else if k != ProtoKey {
      forall i | 0 <= i < |o| ensures o[i].0 != k {
        assert o[i].0 == CreationOrder(o)[i];
      }
    }
  }

  lemma PutNewKey(o: Props, k: string, v: string)
    requires WellFormed(o) && k !in CreationOrder(o) && k != ProtoKey
    ensures Put(o, k, v) == o + [(k, v)]
    ensures WellFormed(o + [(k, v)])
    ensures CreationOrder(o + [(k, v)]) == CreationOrder(o) + [k]
  {
  }

  /** In an object without repeated keys, each property's key reads back its own value. */
  lemma {:induction false} GetAt(o: Props, i: nat)
    requires WellFormed(o) && i < |o|
    ensures Get(o, o[i].0) == Some(o[i].1)
  {
    if i > 0 {
      assert o[0].0 != o[i].0;
      GetAt(o[1..], i - 1);
    }
  }

  /** Appending a property leaves the lookups of the other keys as they were. */
  lemma {:induction false} GetAfterAppend(o: Props, k': string, v: string, k: string)
    ensures Get(o + [(k', v)], k) == if k in CreationOrder(o) then Get(o, k) else if k == k' then Some(v) else None
  {
    if o != [] {
      assert (o + [(k', v)])[1..] == o[1..] + [(k', v)];
      GetAfterAppend(o[1..], k', v, k);
      assert CreationOrder(o) == [o[0].0] + CreationOrder(o[1..]);
    } else {
      assert ([(k', v)])[1..] == [];
    }
  }

  predicate IsDigit(c: char)
  {
    '0' <= c <= '9'
  }

  predicate AllDigits(s: string)
  {
    forall i :: 0 <= i < |s| ==> IsDigit(s[i])
  }

  /** The number a string of decimal digits denotes. */
  function DigitsValue(s: string): nat
    requires AllDigits(s)
  {
    if s == [] then 0 else DigitsValue(s[..|s| - 1]) * 10 + (s[|s| - 1] as int - '0' as int)
  }

  /**
   * An array index: the canonical decimal form (no sign, no leading zero
   * except for "0" itself) of an integer below 2^32 - 1.
   */
  predicate IsArrayIndex(k: string)
  {
    && |k| > 0
    && AllDigits(k)
    && (k[0] != '0' || |k| == 1)
    && DigitsValue(k) < 0xFFFF_FFFF
  }

  function IndexRank(k: string): nat
  {
    if IsArrayIndex(k) then DigitsValue(k) else 0
  }

  /** Numeric order on array-index keys. */
  predicate IndexLe(a: string, b: string)
  {
    IndexRank(a) <= IndexRank(b)
  }

  lemma IndexLeIsTotalPreorder()
    ensures Sorting.TotalPreorder(IndexLe)
  {
  }

  function ArrayIndexKeys(ks: seq<string>): (r: seq<string>)
    ensures forall i :: 0 <= i < |r| ==> IsArrayIndex(r[i])
    ensures multiset(r) <= multiset(ks)
  {
    if ks == [] then []
    else
      assert ks == [ks[0]] + ks[1..];
      if IsArrayIndex(ks[0]) then [ks[0]] + ArrayIndexKeys(ks[1..]) else ArrayIndexKeys(ks[1..])
  }

  function NamedKeys(ks: seq<string>): (r: seq<string>)
    ensures forall i :: 0 <= i < |r| ==> !IsArrayIndex(r[i])
    ensures multiset(r) <= multiset(ks)
  {
    if ks == [] then []
    else
      assert ks == [ks[0]] + ks[1..];
      if IsArrayIndex(ks[0]) then NamedKeys(ks[1..]) else [ks[0]] + NamedKeys(ks[1..])
  }

  lemma {:induction false} SplitIsPermutation(ks: seq<string>)
    ensures multiset(ArrayIndexKeys(ks)) + multiset(NamedKeys(ks)) == multiset(ks)
  {
    if ks != [] {
      SplitIsPermutation(ks[1..]);
      assert ks == [ks[0]] + ks[1..];
    }
  }

  lemma {:induction false} NoIndexKeys(ks: seq<string>)
    requires forall i :: 0 <= i < |ks| ==> !IsArrayIndex(ks[i])
    ensures ArrayIndexKeys(ks) == [] && NamedKeys(ks) == ks
  {
    if ks != [] {
      NoIndexKeys(ks[1..]);
      assert ks == [ks[0]] + ks[1..];
    }
  }

  /** The property order for keys created in the order `ks`. */
  function PropertyOrder(ks: seq<string>): seq<string>
  {
    Sorting.Sort(ArrayIndexKeys(ks), IndexLe) + NamedKeys(ks)
  }

  lemma PropertyOrderIsPermutation(ks: seq<string>)
    ensures multiset(PropertyOrder(ks)) == multiset(ks)
  {
    SplitIsPermutation(ks);
  }

  /**
   * Every key is visited exactly as often as it was created; array-index keys
   * come first, in ascending numeric order, and every other key after them.
   */
  lemma PropertyOrderFacts(ks: seq<string>)
    ensures multiset(PropertyOrder(ks)) == multiset(ks)
    ensures forall i, j :: 0 <= i < j < |PropertyOrder(ks)| && IsArrayIndex(PropertyOrder(ks)[j])
              ==> IsArrayIndex(PropertyOrder(ks)[i]) && DigitsValue(PropertyOrder(ks)[i]) <= DigitsValue(PropertyOrder(ks)[j])
  {
    SplitIsPermutation(ks);
    IndexLeIsTotalPreorder();
    var a := ArrayIndexKeys(ks);
    var s := Sorting.Sort(a, IndexLe);
    Sorting.SortIsSortedPermutation(a, IndexLe);
    forall k | 0 <= k < |s| ensures IsArrayIndex(s[k]) {
      assert s[k] in multiset(a);
    }
  }

  /** With no array-index key the properties are visited in creation order. */
  lemma PropertyOrderWithoutIndexKeys(ks: seq<string>)
    requires forall i :: 0 <= i < |ks| ==> !IsArrayIndex(ks[i])
    ensures PropertyOrder(ks) == ks
  {
    NoIndexKeys(ks);
  }

  /** `Object.keys(o)`, which is also the order of `for (k in o)` here (no inherited enumerable properties). */
  function OwnKeys(o: Props): seq<string>
  {
    PropertyOrder(CreationOrder(o))
  }

  /** The keys of `ks` that an assignment creates: all but `__proto__`, in order. */
  function WithoutProtoKey(ks: seq<string>): (r: seq<string>)
    ensures |r| <= |ks|
    ensures forall k :: k in r <==> k in ks && k != ProtoKey
  {
    if ks == [] then []
    else WithoutProtoKey(ks[..|ks| - 1]) + (if ks[|ks| - 1] == ProtoKey then [] else [ks[|ks| - 1]])
  }

  lemma {:induction false} WithoutProtoKeyCount(ks: seq<string>)
    ensures multiset(WithoutProtoKey(ks)) == multiset(ks)[ProtoKey := 0]
  {
    if ks != [] {
      var init, last := ks[..|ks| - 1], ks[|ks| - 1];
      WithoutProtoKeyCount(init);
      assert ks == init + [last];
    }
  }

  /** Dropping `__proto__` keeps a repeat-free list repeat-free, one shorter exactly when it held `__proto__`. */
  lemma {:induction false} WithoutProtoKeyDistinct(ks: seq<string>)
    requires Distinct(ks)
    ensures Distinct(WithoutProtoKey(ks))
    ensures |WithoutProtoKey(ks)| == if ProtoKey in ks then |ks| - 1 else |ks|
  {
    if ks != [] {
      var init, last := ks[..|ks| - 1], ks[|ks| - 1];
      WithoutProtoKeyDistinct(init);
      assert last !in init;
      assert ks == init + [last];
    }
  }

  /** Without a `__proto__` key nothing is dropped. */
  lemma {:induction false} WithoutProtoKeyNone(ks: seq<string>)
    requires ProtoKey !in ks
    ensures WithoutProtoKey(ks) == ks
  {
    if ks != [] {
      WithoutProtoKeyNone(ks[..|ks| - 1]);
      assert ks[..|ks| - 1] + [ks[|ks| - 1]] == ks;
    }
  }

  /** A step of a loop over `ks`: one more key. */
  lemma WithoutProtoKeyStep(ks: seq<string>, i: nat)
    requires i < |ks|
    ensures WithoutProtoKey(ks[..i + 1]) == WithoutProtoKey(ks[..i]) + (if ks[i] == ProtoKey then [] else [ks[i]])
  {
    assert ks[..i + 1][..i] == ks[..i];
  }
}
