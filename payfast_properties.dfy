/**
 * What the PayFast pre-hash string promises about the parameters it was
 * built from: every key appears once, in sorted order when no key looks like
 * an array index, and the string splits back into exactly those parameters
 * with their values.
 */
module PayFastProperties {
  import opened Wrappers
  import opened JsStrings
  import opened UriEncoding
  import opened JsObjects
  import opened PayFastSignature
  import Sorting

  // ---------------------------------------------------------------------
  // Which keys are written, and in what order.
  // ---------------------------------------------------------------------

  lemma CodeUnitLeIsTotalPreorder()
    ensures Sorting.TotalPreorder(CodeUnitLe)
  {
    forall a, b ensures CodeUnitLe(a, b) || CodeUnitLe(b, a) {
      CodeUnitOrderIsTotal(a, b, a);
    }
    forall a, b, c | CodeUnitLe(a, b) && CodeUnitLe(b, c) ensures CodeUnitLe(a, c) {
      CodeUnitOrderIsTotal(a, b, c);
    }
  }

  /** The loop visits every key of `data` exactly once, except `__proto__`, which the copy never created. */
  lemma ParameterOrderListsEveryKeyOnce(data: Props)
    requires WellFormed(data)
    ensures |ParameterOrder(data)| == if ProtoKey in CreationOrder(data) then |data| - 1 else |data|
    ensures Distinct(ParameterOrder(data))
    ensures forall k :: k in ParameterOrder(data) <==> k in CreationOrder(data) && k != ProtoKey
  {
    var sorted, copied, ks := SortedKeys(data), CopiedKeys(data), ParameterOrder(data);
    SortedKeysFacts(data);
    PropertyOrderIsPermutation(CreationOrder(data));
    assert |sorted| == |multiset(sorted)| == |multiset(CreationOrder(data))| == |data|;
    WithoutProtoKeyDistinct(sorted);
    PropertyOrderIsPermutation(copied);
    assert |ks| == |multiset(ks)| == |multiset(copied)| == |copied|;
    DistinctPermutation(copied, ks);
    forall k ensures k in ks <==> k in copied {
      assert k in ks <==> k in multiset(ks);
      assert k in copied <==> k in multiset(copied);
    }
  }

  /** Every key of `data` but `__proto__` is written exactly once, with its own value. */
  lemma ArrangedListsEveryKeyOnce(data: Props)
    requires WellFormed(data)
    ensures |Arranged(data)| == if ProtoKey in CreationOrder(data) then |data| - 1 else |data|
    ensures WellFormed(Arranged(data))
    ensures forall k :: k in CreationOrder(Arranged(data)) <==> k in CreationOrder(data) && k != ProtoKey
    ensures forall i :: 0 <= i < |Arranged(data)| ==> Get(data, Arranged(data)[i].0) == Some(Arranged(data)[i].1)
  {
    var ks := ParameterOrder(data);
    var a := Arranged(data);
    ParameterOrderListsEveryKeyOnce(data);
    assert CreationOrder(a) == ks;
    forall i | 0 <= i < |a| ensures Get(data, a[i].0) == Some(a[i].1) {
      assert ks[i] in CreationOrder(data);
    }
  }

  /** A `__proto__` key is never written, whatever its value. */
  lemma ProtoKeyIsNeverWritten(data: Props)
    ensures ProtoKey !in CreationOrder(Arranged(data))
  {
    ParameterOrderIsPermutation(data);
    assert CreationOrder(Arranged(data)) == ParameterOrder(data);
  }

  /** So parameters whose only key is `__proto__` are signed as the empty string, the value left out. */
  lemma ProtoKeyAloneGivesEmptyString(v: string)
    ensures Arranged([(ProtoKey, v)]) == []
    ensures PreHash([(ProtoKey, v)], None) == ""
  {
    var data := [(ProtoKey, v)];
    assert CreationOrder(data) == [ProtoKey];
    ArrangedListsEveryKeyOnce(data);
    assert Pairs(Arranged(data)) == [];
    assert PassphraseSuffix(None) == "";
  }

  /** No key of `data` is the decimal form of an array index. */
  predicate NoArrayIndexKeys(data: Props)
  {
    forall i :: 0 <= i < |data| ==> !IsArrayIndex(data[i].0)
  }

  /** Without array-index keys `Object.keys(data)` is the creation order. */
  lemma SortedKeysWithoutIndexKeys(data: Props)
    requires NoArrayIndexKeys(data)
    ensures SortedKeys(data) == Sorting.Sort(CreationOrder(data), CodeUnitLe)
    ensures Sorting.SortedBy(SortedKeys(data), CodeUnitLe)
    ensures forall i :: 0 <= i < |SortedKeys(data)| ==> !IsArrayIndex(SortedKeys(data)[i])
  {
    var c := CreationOrder(data);
    PropertyOrderWithoutIndexKeys(c);
    var s := SortedKeys(data);
    CodeUnitLeIsTotalPreorder();
    Sorting.SortIsSortedPermutation(c, CodeUnitLe);
    forall i | 0 <= i < |s| ensures !IsArrayIndex(s[i]) {
      assert s[i] in multiset(c);
    }
  }

  /** Strictly ascending by UTF-16 code units. */
  predicate StrictlyAscending(ks: seq<string>)
  {
    forall i, j :: 0 <= i < j < |ks| ==> CodeUnitLe(ks[i], ks[j]) && ks[i] != ks[j]
  }

  lemma {:induction false} StrictlyAscendingWithoutProtoKey(ks: seq<string>)
    requires StrictlyAscending(ks)
    ensures StrictlyAscending(WithoutProtoKey(ks))
  {
    if ks != [] {
      var init, last := ks[..|ks| - 1], ks[|ks| - 1];
      assert forall i :: 0 <= i < |init| ==> init[i] == ks[i];
      StrictlyAscendingWithoutProtoKey(init);
      var w := WithoutProtoKey(init);
      forall i | 0 <= i < |w| ensures CodeUnitLe(w[i], last) && w[i] != last {
        assert w[i] in init;
        var m :| 0 <= m < |init| && init[m] == w[i];
        assert ks[m] == w[i];
      }
    }
  }

  /**
   * Without array-index keys the keys are written in `Object.keys(data).sort()`
   * order, `__proto__` left out: strictly ascending by UTF-16 code units.
   */
  lemma ArrangedSortedWithoutIndexKeys(data: Props)
    requires WellFormed(data) && NoArrayIndexKeys(data)
    ensures CreationOrder(Arranged(data)) == WithoutProtoKey(Sorting.Sort(CreationOrder(data), CodeUnitLe))
    ensures forall i, j :: 0 <= i < j < |Arranged(data)| ==>
      CodeUnitLe(Arranged(data)[i].0, Arranged(data)[j].0) && Arranged(data)[i].0 != Arranged(data)[j].0
  {
    var sorted := SortedKeys(data);
    SortedKeysWithoutIndexKeys(data);
    SortedKeysFacts(data);
    assert StrictlyAscending(sorted);
    StrictlyAscendingWithoutProtoKey(sorted);
    var copied := CopiedKeys(data);
    forall i | 0 <= i < |copied| ensures !IsArrayIndex(copied[i]) {
      assert copied[i] in sorted;
    }
    PropertyOrderWithoutIndexKeys(copied);
    assert CreationOrder(Arranged(data)) == copied;
  }

  /**
   * Parameters created in ascending key order, none of them an array index
   * or `__proto__`, are written exactly as given: the sort and the copy
   * change nothing.
   */
  lemma ArrangedKeepsSortedInput(data: Props)
    requires WellFormed(data) && NoArrayIndexKeys(data) && ProtoKey !in CreationOrder(data)
    requires Sorting.SortedBy(CreationOrder(data), CodeUnitLe)
    ensures Arranged(data) == data
  {
    SortedInputOrder(data);
    WithValuesInCreationOrder(data);
  }

  lemma SortedInputOrder(data: Props)
    requires NoArrayIndexKeys(data) && ProtoKey !in CreationOrder(data)
    requires Sorting.SortedBy(CreationOrder(data), CodeUnitLe)
    ensures ParameterOrder(data) == CreationOrder(data)
  {
    var c := CreationOrder(data);
    SortedKeysWithoutIndexKeys(data);
    Sorting.SortOfSorted(c, CodeUnitLe);
    WithoutProtoKeyNone(c);
    PropertyOrderWithoutIndexKeys(c);
  }

  /** Reading every key back in creation order rebuilds the object. */
  lemma WithValuesInCreationOrder(o: Props)
    requires WellFormed(o)
    ensures WithValues(o, CreationOrder(o)) == o
  {
    forall i | 0 <= i < |o| ensures WithValues(o, CreationOrder(o))[i] == o[i] {
      GetAt(o, i);
    }
  }

  /**
   * Array-index keys are written before all other keys, in ascending
   * numeric order, because the loop over `ordered_data` visits them that way.
   */
  lemma ArrangedIndexKeysFirst(data: Props)
    ensures forall i, j :: 0 <= i < j < |Arranged(data)| && IsArrayIndex(Arranged(data)[j].0) ==>
      && IsArrayIndex(Arranged(data)[i].0)
      && DigitsValue(Arranged(data)[i].0) <= DigitsValue(Arranged(data)[j].0)
  {
    PropertyOrderFacts(CopiedKeys(data));
  }

  // ---------------------------------------------------------------------
  // Reading the string back.
  // ---------------------------------------------------------------------

  /** `s.split(sep)`: the pieces between separators; "" splits into [""]. */
  function Split(s: string, sep: char): (r: seq<string>)
    ensures |r| >= 1
  {
    if s == [] then [""]
    else
      var rest := Split(s[1..], sep);
      if s[0] == sep then [""] + rest else [[s[0]] + rest[0]] + rest[1..]
  }

  lemma {:induction false} SplitWithoutSeparator(x: string, sep: char)
    requires sep !in x
    ensures Split(x, sep) == [x]
  {
    if x != [] {
      SplitWithoutSeparator(x[1..], sep);
      assert [x[0]] + x[1..] == x;
    }
  }

  lemma {:induction false} SplitAtSeparator(a: string, b: string, sep: char)
    ensures Split(a + [sep] + b, sep) == Split(a, sep) + Split(b, sep)
  {
    var s := a + [sep] + b;
    if a == [] {
      assert s[0] == sep && s[1..] == b;
    } else {
      assert s[0] == a[0] && s[1..] == a[1..] + [sep] + b;
      SplitAtSeparator(a[1..], b, sep);
      var r := Split(a[1..], sep);
      if a[0] != sep {
        assert (r + Split(b, sep))[1..] == r[1..] + Split(b, sep);
      }
    }
  }

  /** Splitting the joined pieces at the separator gives the pieces back. */
  lemma {:induction false} SplitJoin(ps: seq<string>, sep: char)
    requires ps != [] && forall i :: 0 <= i < |ps| ==> sep !in ps[i]
    ensures Split(Join(ps, sep), sep) == ps
  {
    var last := ps[|ps| - 1];
    SplitWithoutSeparator(last, sep);
    if |ps| > 1 {
      var init := ps[..|ps| - 1];
      SplitJoin(init, sep);
      SplitAtSeparator(Join(init, sep), last, sep);
      assert init + [last] == ps;
    }
  }

  /** The text before and after the first `c`, if there is one. */
  function CutAt(s: string, c: char): (r: Option<(string, string)>)
    ensures r.Some? ==> s == r.value.0 + [c] + r.value.1 && c !in r.value.0
    ensures r.None? ==> c !in s
  {
    if s == [] then None
    else if s[0] == c then Some(([], s[1..]))
    else
      match CutAt(s[1..], c)
      case None => None
      case Some((x, y)) => Some(([s[0]] + x, y))
  }

  lemma {:induction false} CutAtFirst(x: string, y: string, c: char)
    requires c !in x
    ensures CutAt(x + [c] + y, c) == Some((x, y))
  {
    var s := x + [c] + y;
    if x != [] {
      assert s[1..] == x[1..] + [c] + y;
      CutAtFirst(x[1..], y, c);
      assert [x[0]] + x[1..] == x;
    } else {
      assert s[1..] == y;
    }
  }

  /** One `key=value` field: the key before the first `=`, and the form-decoded octets of the value. */
  function ParseField(f: string): Option<(string, seq<byte>)>
  {
    match CutAt(f, '=')
    case None => None
    case Some((k, v)) =>
      match FormDecode(v)
      case None => None
      case Some(bs) => Some((k, bs))
  }

  function ParseFields(fs: seq<string>): (r: seq<Option<(string, seq<byte>)>>)
    ensures |r| == |fs|
  {
    if fs == [] then [] else ParseFields(fs[..|fs| - 1]) + [ParseField(fs[|fs| - 1])]
  }

  /** A pre-hash string read back as a list of parameters. */
  function ParseQuery(s: string): seq<Option<(string, seq<byte>)>>
  {
    ParseFields(Split(s, '&'))
  }

  /** What reading back should give for these parameters: each key with its value's UTF-8 octets. */
  function Decoded(props: Props): (r: seq<Option<(string, seq<byte>)>>)
    ensures |r| == |props|
  {
    if props == [] then []
    else Decoded(props[..|props| - 1]) + [Some((props[|props| - 1].0, Utf8String(props[|props| - 1].1)))]
  }

  /** Keys the query syntax can carry unencoded. */
  predicate PlainKeys(props: Props)
  {
    forall i :: 0 <= i < |props| ==> '&' !in props[i].0 && '=' !in props[i].0
  }

  lemma ParsePair(k: string, v: string)
    requires '=' !in k
    ensures ParseField(QueryPair(k, v)) == Some((k, Utf8String(v)))
    ensures '&' !in k ==> '&' !in QueryPair(k, v)
  {
    assert QueryPair(k, v) == k + ['='] + FormEncode(v);
    CutAtFirst(k, FormEncode(v), '=');
    FormDecodeOfEncode(v);
    FormEncodeAlphabet(v);
  }

  lemma {:induction false} ParseFieldsOfPairs(props: Props)
    requires PlainKeys(props)
    ensures ParseFields(Pairs(props)) == Decoded(props)
    ensures forall i :: 0 <= i < |props| ==> '&' !in Pairs(props)[i]
  {
    if props != [] {
      var init, last := props[..|props| - 1], props[|props| - 1];
      ParseFieldsOfPairs(init);
      ParsePair(last.0, last.1);
      assert Pairs(props)[..|props| - 1] == Pairs(init);
      forall i | 0 <= i < |props| ensures '&' !in Pairs(props)[i] {
        ParsePair(props[i].0, props[i].1);
      }
    }
  }

  lemma ArrangedKeysArePlain(data: Props)
    requires WellFormed(data) && PlainKeys(data)
    ensures PlainKeys(Arranged(data))
  {
    ArrangedListsEveryKeyOnce(data);
    forall i | 0 <= i < |Arranged(data)|
      ensures '&' !in Arranged(data)[i].0 && '=' !in Arranged(data)[i].0
    {
      assert Arranged(data)[i].0 in CreationOrder(data);
    }
  }

  lemma PlainKeysAppend(props: Props, k: string, v: string)
    requires PlainKeys(props) && '&' !in k && '=' !in k
    ensures PlainKeys(props + [(k, v)])
  {
  }

  lemma PassphraseIsPlain()
    ensures '&' !in "passphrase" && '=' !in "passphrase"
  {
  }

  /** Joined `key=value` pairs read back as the parameters they were written from. */
  lemma QueryParsesBack(props: Props)
    requires PlainKeys(props) && props != []
    ensures ParseQuery(Join(Pairs(props), '&')) == Decoded(props)
  {
    ParseFieldsOfPairs(props);
    SplitJoin(Pairs(props), '&');
  }

  /**
   * Without a passphrase, the string reads back as exactly the written
   * parameters; with none to write it is "", which reads back as one empty field.
   */
  lemma PreHashParsesBack(data: Props)
    requires WellFormed(data) && PlainKeys(data)
    ensures Arranged(data) != [] ==> ParseQuery(PreHash(data, None)) == Decoded(Arranged(data))
    ensures Arranged(data) == [] ==> ParseQuery(PreHash(data, None)) == [None]
  {
    var a := Arranged(data);
    assert PassphraseSuffix(None) == [];
    assert PreHash(data, None) == Join(Pairs(a), '&');
    if a != [] {
      ArrangedKeysArePlain(data);
      QueryParsesBack(a);
    } else {
      assert Pairs(a) == [];
      EmptyQuery();
    }
  }

  lemma EmptyQuery()
    ensures ParseQuery("") == [None]
  {
    SplitWithoutSeparator("", '&');
    assert [""][..0] == [];
  }

  /** One more `&key=value` after the joined pairs is one more parameter when reading back. */
  lemma QueryWithOneMoreParsesBack(props: Props, k: string, v: string)
    requires PlainKeys(props + [(k, v)]) && props != []
    ensures ParseQuery(Join(Pairs(props), '&') + ("&" + QueryPair(k, v))) == Decoded(props + [(k, v)])
  {
    var all := props + [(k, v)];
    assert all[..|all| - 1] == props;
    var ps := Pairs(all);
    assert ps[..|ps| - 1] == Pairs(props);
    assert Join(Pairs(props), '&') + ("&" + QueryPair(k, v)) == Join(ps, '&');
    QueryParsesBack(all);
  }

  /**
   * A passphrase reads back as one more parameter, named `passphrase`, holding
   * the trimmed passphrase; with no parameters to write, an empty field comes first.
   */
  lemma PreHashWithPassphraseParsesBack(data: Props, passPhrase: string)
    requires WellFormed(data) && PlainKeys(data)
    ensures Arranged(data) != [] ==>
      ParseQuery(PreHash(data, Some(passPhrase))) == Decoded(Arranged(data) + [("passphrase", Trim(passPhrase))])
    ensures Arranged(data) == [] ==>
      ParseQuery(PreHash(data, Some(passPhrase))) == [None] + Decoded([("passphrase", Trim(passPhrase))])
  {
    if Arranged(data) == [] {
      PassphraseOnly(data, passPhrase);
    } else {
      PassphraseAfterParameters(data, passPhrase);
    }
  }

  lemma PassphraseAfterParameters(data: Props, passPhrase: string)
    requires WellFormed(data) && PlainKeys(data) && Arranged(data) != []
    ensures ParseQuery(PreHash(data, Some(passPhrase)))
         == Decoded(Arranged(data) + [("passphrase", Trim(passPhrase))])
  {
    var a := Arranged(data);
    ArrangedKeysArePlain(data);
    PassphraseIsPlain();
    PlainKeysAppend(a, "passphrase", Trim(passPhrase));
    QueryWithOneMoreParsesBack(a, "passphrase", Trim(passPhrase));
    PassphraseSuffixIsPair(passPhrase);
  }

  /** The passphrase is appended as one more `&key=value` pair. */
  lemma PassphraseSuffixIsPair(passPhrase: string)
    ensures PassphraseSuffix(Some(passPhrase)) == "&" + QueryPair("passphrase", Trim(passPhrase))
  {
    var e := FormEncode(Trim(passPhrase));
    SuffixShape(e);
  }

  lemma SuffixShape(e: string)
    ensures "&passphrase=" + e == "&" + ("passphrase" + "=" + e)
  {
  }

  /**
   * With no parameters to write but a passphrase, the string starts with `&`,
   * so it reads back as an empty first field before the passphrase.
   */
  lemma PassphraseOnly(data: Props, passPhrase: string)
    requires Arranged(data) == []
    ensures PreHash(data, Some(passPhrase)) == "&" + QueryPair("passphrase", Trim(passPhrase))
    ensures ParseQuery(PreHash(data, Some(passPhrase))) == [None] + Decoded([("passphrase", Trim(passPhrase))])
  {
    assert Pairs(Arranged(data)) == [];
    PassphraseSuffixIsPair(passPhrase);
    PassphraseIsPlain();
    OnlyOneMore("passphrase", Trim(passPhrase));
  }

  lemma OnlyOneMore(k: string, v: string)
    requires '&' !in k && '=' !in k
    ensures ParseQuery("&" + QueryPair(k, v)) == [None] + Decoded([(k, v)])
  {
    var q := QueryPair(k, v);
    ParsePair(k, v);
    LeadingSeparator(q, '&');
    ParseTwo("", q);
    DecodedOne(k, v);
  }

  lemma LeadingSeparator(q: string, sep: char)
    requires sep !in q
    ensures Split([sep] + q, sep) == ["", q]
  {
    assert [sep] + q == [] + [sep] + q;
    SplitAtSeparator([], q, sep);
    SplitWithoutSeparator(q, sep);
  }

  lemma ParseTwo(a: string, b: string)
    ensures ParseFields([a, b]) == [ParseField(a), ParseField(b)]
  {
  }

  lemma DecodedOne(k: string, v: string)
    ensures Decoded([(k, v)]) == [Some((k, Utf8String(v)))]
  {
  }

  /** The pre-hash string never ends in `&`: the loop's last separator is cut off. */
  lemma PreHashHasNoTrailingAmpersand(data: Props, passPhrase: Option<string>)
    ensures PreHash(data, passPhrase) != [] ==> PreHash(data, passPhrase)[|PreHash(data, passPhrase)| - 1] != '&'
  {
    var j := Join(Pairs(Arranged(data)), '&');
    JoinedPairsEnd(Arranged(data));
    match passPhrase
    case None =>
      assert PreHash(data, None) == j;
    case Some(p) =>
      PassphraseSuffixEnd(p);
      LastOfAppend(j, PassphraseSuffix(passPhrase));
  }

  /** The passphrase suffix is never empty and ends in the encoded passphrase, not in `&`. */
  lemma PassphraseSuffixEnd(passPhrase: string)
    ensures var s := PassphraseSuffix(Some(passPhrase));
      s != [] && s[|s| - 1] != '&'
  {
    var q := QueryPair("passphrase", Trim(passPhrase));
    PassphraseSuffixIsPair(passPhrase);
    QueryPairEnd("passphrase", Trim(passPhrase));
    LastOfAppend("&", q);
  }

  lemma LastOfAppend(a: string, b: string)
    requires b != []
    ensures (a + b)[|a + b| - 1] == b[|b| - 1]
  {
  }

  /** Joined pairs end in the last pair's last character, which is not `&`. */
  lemma JoinedPairsEnd(props: Props)
    ensures var j := Join(Pairs(props), '&');
      j != [] ==> j[|j| - 1] != '&'
  {
    var ps := Pairs(props);
    if ps != [] {
      var a := props[|ps| - 1];
      QueryPairEnd(a.0, a.1);
      JoinEnd(ps, '&');
    }
  }

  /** A pair ends in its encoded value's last character, or in `=` when the value is empty; never in `&`. */
  lemma QueryPairEnd(k: string, v: string)
    ensures QueryPair(k, v) != [] && QueryPair(k, v)[|QueryPair(k, v)| - 1] != '&'
  {
    FormEncodeAlphabet(v);
    var e := FormEncode(v);
    if e != [] {
      assert QueryPair(k, v)[|QueryPair(k, v)| - 1] == e[|e| - 1];
    }
  }

  lemma JoinEnd(ps: seq<string>, sep: char)
    requires ps != [] && ps[|ps| - 1] != []
    ensures var j, l := Join(ps, sep), ps[|ps| - 1];
      j != [] && j[|j| - 1] == l[|l| - 1]
  {
  }
}
