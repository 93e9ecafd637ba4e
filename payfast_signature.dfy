/**
 * The PayFast request signature (`generateAPISignature`): the parameters are
 * put in key order, written as `key=value` pairs with form-encoded values,
 * joined with `&`, optionally followed by `&passphrase=…`, and the MD5 of
 * that string's UTF-8 octets is the signature. MD5 itself is a parameter.
 */
module PayFastSignature {
  import opened Wrappers
  import opened JsStrings
  import opened UriEncoding
  import opened JsObjects
  import Sorting

  /** `Object.keys(data).sort()`: the keys in code-unit order. */
  function SortedKeys(data: Props): seq<string>
  {
    Sorting.Sort(OwnKeys(data), CodeUnitLe)
  }

  /** The keys the copying loop creates on `ordered_data`: the sorted keys but `__proto__`. */
  function CopiedKeys(data: Props): seq<string>
  {
    WithoutProtoKey(SortedKeys(data))
  }

  /**
   * The order in which the builder's `for…in` visits `ordered_data`, the
   * object it filled in sorted-key order: array-index keys still come first.
   */
  function ParameterOrder(data: Props): seq<string>
  {
    PropertyOrder(CopiedKeys(data))
  }

  lemma SortedKeysFacts(data: Props)
    requires WellFormed(data)
    ensures Distinct(SortedKeys(data))
    ensures forall k :: k in SortedKeys(data) <==> k in CreationOrder(data)
  {
    var keys := SortedKeys(data);
    PropertyOrderIsPermutation(CreationOrder(data));
    forall k ensures k in keys <==> k in CreationOrder(data) {
      assert k in keys <==> k in multiset(keys);
      assert k in CreationOrder(data) <==> k in multiset(CreationOrder(data));
    }
    DistinctPermutation(CreationOrder(data), keys);
  }

  /** The visiting order holds each key of `data` as often as it was created, except `__proto__`. */
  lemma ParameterOrderIsPermutation(data: Props)
    ensures multiset(ParameterOrder(data)) == multiset(CreationOrder(data))[ProtoKey := 0]
    ensures forall i :: 0 <= i < |ParameterOrder(data)| ==>
      ParameterOrder(data)[i] in CreationOrder(data) && ParameterOrder(data)[i] != ProtoKey
  {
    PropertyOrderIsPermutation(CreationOrder(data));
    WithoutProtoKeyCount(SortedKeys(data));
    PropertyOrderIsPermutation(CopiedKeys(data));
    var p := ParameterOrder(data);
    forall i | 0 <= i < |p| ensures p[i] in CreationOrder(data) && p[i] != ProtoKey {
      assert p[i] in multiset(p);
    }
  }

  /** The parameters in the order the builder writes them, each with its value. */
  function Arranged(data: Props): Props
  {
    WithValues(data, ParameterOrder(data))
  }

  /** Each key paired with its value in `o` (every key passed here is present). */
  function WithValues(o: Props, ks: seq<string>): (r: Props)
    ensures |r| == |ks|
    ensures forall i :: 0 <= i < |ks| ==> r[i] == (ks[i], Get(o, ks[i]).GetOr(""))
  {
    if ks == [] then []
    else WithValues(o, ks[..|ks| - 1]) + [(ks[|ks| - 1], Get(o, ks[|ks| - 1]).GetOr(""))]
  }

  /** One parameter as the builder writes it. */
  function QueryPair(k: string, v: string): string
  {
    k + "=" + FormEncode(v)
  }

  function Pairs(props: Props): (ps: seq<string>)
    ensures |ps| == |props|
    ensures forall i :: 0 <= i < |props| ==> ps[i] == QueryPair(props[i].0, props[i].1)
  {
    if props == [] then []
    else
      var init := props[..|props| - 1];
      assert forall i :: 0 <= i < |init| ==> init[i] == props[i];
      Pairs(init) + [QueryPair(props[|props| - 1].0, props[|props| - 1].1)]
  }

  /** Strings joined by a separator, the separator written only between neighbours. */
  function Join(ps: seq<string>, sep: char): string
  {
    if ps == [] then ""
    else if |ps| == 1 then ps[0]
    else Join(ps[..|ps| - 1], sep) + [sep] + ps[|ps| - 1]
  }

  /** Each string followed by an `&`: what the builder's loop accumulates. */
  function Terminated(ps: seq<string>): string
  {
    if ps == [] then "" else Terminated(ps[..|ps| - 1]) + ps[|ps| - 1] + "&"
  }

  /** `s.substring(0, s.length - 1)`; a negative end counts as 0, so "" stays "". */
  function DropLast(s: string): string
  {
    if s == [] then s else s[..|s| - 1]
  }

  function PassphraseSuffix(passPhrase: Option<string>): string
  {
    match passPhrase
    case None => ""
    case Some(p) => "&passphrase=" + FormEncode(Trim(p))
  }

  /** The string whose MD5 is the signature. */
  function PreHash(data: Props, passPhrase: Option<string>): string
  {
    Join(Pairs(Arranged(data)), '&') + PassphraseSuffix(passPhrase)
  }

  /**
   * `generateAPISignature(data, passPhrase)`: copy `data` into
   * `ordered_data` in sorted-key order, write `key=value&` for each key of
   * `ordered_data`, cut off the last `&` and append the passphrase. Returns
   * that string and its MD5 signature.
   */
  method GenerateApiSignature(data: Props, passPhrase: Option<string>, md5Hex: seq<byte> -> string)
    returns (getString: string, signature: string)
    requires WellFormed(data)
    ensures getString == PreHash(data, passPhrase)
    ensures signature == md5Hex(Utf8String(getString))
  {
    var ordered := OrderedData(data);
    getString := QueryString(data, ordered);
    if passPhrase.Some? {
      getString := getString + ("&passphrase=" + FormEncode(Trim(passPhrase.value)));
    }
    signature := md5Hex(Utf8String(getString));
  }

  /** The first loop: `ordered_data[key] = data[key]` for every key of `Object.keys(data).sort()`. */
  method OrderedData(data: Props) returns (ordered: Props)
    requires WellFormed(data)
    ensures WellFormed(ordered) && CreationOrder(ordered) == CopiedKeys(data)
    ensures forall k :: k in CreationOrder(ordered) ==> Get(ordered, k) == Get(data, k)
  {
    var keys := SortedKeys(data);
    SortedKeysFacts(data);
    ordered := [];
    var i := 0;
    while i < |keys|
      invariant 0 <= i <= |keys|
      invariant WellFormed(ordered) && CreationOrder(ordered) == WithoutProtoKey(keys[..i])
      invariant forall k :: k in CreationOrder(ordered) ==> Get(ordered, k) == Get(data, k)
    {
      CopyStep(data, ordered, keys, i);
      ordered := Put(ordered, keys[i], Get(data, keys[i]).value);
      i := i + 1;
    }
    assert keys[..i] == keys;
  }

  /**
   * One step of the copying loop: the next key is new, so the assignment
   * appends it, unless it is `__proto__`, which the assignment does not create.
   */
  lemma CopyStep(data: Props, ordered: Props, keys: seq<string>, i: nat)
    requires i < |keys| && Distinct(keys) && keys[i] in CreationOrder(data)
    requires WellFormed(ordered) && CreationOrder(ordered) == WithoutProtoKey(keys[..i])
    requires forall k :: k in CreationOrder(ordered) ==> Get(ordered, k) == Get(data, k)
    ensures var o := Put(ordered, keys[i], Get(data, keys[i]).value);
      && WellFormed(o) && CreationOrder(o) == WithoutProtoKey(keys[..i + 1])
      && forall k :: k in CreationOrder(o) ==> Get(o, k) == Get(data, k)
  {
    var v := Get(data, keys[i]).value;
    WithoutProtoKeyStep(keys, i);
    if keys[i] != ProtoKey {
      assert keys[i] !in keys[..i];
      PutNewKey(ordered, keys[i], v);
      forall k | k in CreationOrder(ordered + [(keys[i], v)]) ensures Get(ordered + [(keys[i], v)], k) == Get(data, k) {
        GetAfterAppend(ordered, keys[i], v, k);
      }
    }
  }

  /**
   * The second loop, `for (let key in data) getString += key + '=' + … + '&'`,
   * over the ordered copy, and the cut of the last character.
   */
  method QueryString(data: Props, ordered: Props) returns (getString: string)
    requires WellFormed(data) && WellFormed(ordered) && CreationOrder(ordered) == CopiedKeys(data)
    requires forall k :: k in CreationOrder(ordered) ==> Get(ordered, k) == Get(data, k)
    ensures getString == Join(Pairs(Arranged(data)), '&')
  {
    var order := OwnKeys(ordered);
    ghost var arranged := Arranged(data);
    OrderedMatchesArranged(data, ordered);
    getString := "";
    var j := 0;
    while j < |order|
      invariant 0 <= j <= |order| == |arranged|
      invariant getString == Terminated(Pairs(arranged[..j]))
    {
      var k := order[j];
      assert arranged[j] == (k, Get(ordered, k).value);
      WriteStep(arranged, j);
      getString := getString + (k + "=" + FormEncode(Get(ordered, k).value) + "&");
      j := j + 1;
    }
    assert arranged[..j] == arranged;
    DropLastOfTerminated(Pairs(arranged));
    getString := DropLast(getString);
  }

  /** Visiting the ordered copy's keys and reading its values gives exactly the arranged parameters. */
  lemma OrderedMatchesArranged(data: Props, ordered: Props)
    requires WellFormed(data) && CreationOrder(ordered) == CopiedKeys(data)
    requires forall k :: k in CreationOrder(ordered) ==> Get(ordered, k) == Get(data, k)
    ensures |OwnKeys(ordered)| == |Arranged(data)|
    ensures forall j :: 0 <= j < |OwnKeys(ordered)| ==>
      && OwnKeys(ordered)[j] in CreationOrder(ordered)
      && Arranged(data)[j] == (OwnKeys(ordered)[j], Get(ordered, OwnKeys(ordered)[j]).value)
  {
    var order := OwnKeys(ordered);
    assert order == ParameterOrder(data);
    ParameterOrderIsPermutation(data);
    PropertyOrderIsPermutation(CopiedKeys(data));
    forall j | 0 <= j < |order|
      ensures order[j] in CreationOrder(ordered)
      ensures Arranged(data)[j] == (order[j], Get(ordered, order[j]).value)
    {
      assert order[j] in multiset(order);
      assert order[j] in CreationOrder(data);
    }
  }

  /** One step of the writing loop appends the next pair and an `&`. */
  lemma WriteStep(props: Props, j: nat)
    requires j < |props|
    ensures Terminated(Pairs(props[..j + 1])) == Terminated(Pairs(props[..j])) + (QueryPair(props[j].0, props[j].1) + "&")
  {
    assert props[..j + 1][..j] == props[..j];
    var ps := Pairs(props[..j]) + [QueryPair(props[j].0, props[j].1)];
    assert ps[..|ps| - 1] == Pairs(props[..j]);
  }

  lemma {:induction false} TerminatedIsJoinPlusAmp(ps: seq<string>)
    requires ps != []
    ensures Terminated(ps) == Join(ps, '&') + "&"
  {
    if |ps| > 1 {
      TerminatedIsJoinPlusAmp(ps[..|ps| - 1]);
    } else {
      assert ps[..0] == [];
    }
  }

  /** Cutting the last character off the loop's result leaves exactly the `&`-joined pairs. */
  lemma {:induction false} DropLastOfTerminated(ps: seq<string>)
    ensures DropLast(Terminated(ps)) == Join(ps, '&')
  {
    if ps != [] {
      TerminatedIsJoinPlusAmp(ps);
      var j := Join(ps, '&');
      assert (j + "&")[..|j|] == j;
    }
  }

  lemma {:induction false} CountInDistinct(s: seq<string>, x: string)
    requires Distinct(s)
    ensures multiset(s)[x] <= 1
  {
    if s != [] {
      assert s == [s[0]] + s[1..];
      CountInDistinct(s[1..], x);
      if s[0] == x {
        assert x !in s[1..];
      }
    }
  }

  lemma CountOfRepeat(b: seq<string>, i: nat, j: nat)
    requires i < j < |b|
    ensures b[i] == b[j] ==> multiset(b)[b[i]] >= 2
  {
    assert b == b[..i] + [b[i]] + b[i + 1..j] + [b[j]] + b[j + 1..];
  }

  /** A rearrangement of a list without repeats has no repeats. */
  lemma DistinctPermutation(a: seq<string>, b: seq<string>)
    requires Distinct(a) && multiset(a) == multiset(b)
    ensures Distinct(b)
  {
    forall i, j | 0 <= i < j < |b| ensures b[i] != b[j] {
      CountInDistinct(a, b[i]);
      CountOfRepeat(b, i, j);
    }
  }
}
