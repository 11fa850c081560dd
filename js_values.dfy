/** JavaScript values as the two widgets see them: the fields of a record,
    JS truthiness (what `||` and `filter(Boolean)` test) and the `String(v)`
    conversion the search filter applies to every field. */
module JsValues {
  import opened Seqs

  datatype Option<+T> = None | Some(value: T)

  /** A field value. JS numbers are modelled as integers (see README). */
  datatype Value =
    | Undefined
    | Null
    | Bool(b: bool)
    | Num(n: int)
    | Str(s: string)
    | Arr(elems: seq<Value>)

  /** One own enumerable property of a plain object. */
  datatype Field = Field(key: string, val: Value)

  /** A record: the own properties of a plain object, in JS key order, so
      that `Object.entries(item)` is the record itself. */
  type Record = seq<Field>

  /** `Object.keys(r)` */
  function Keys(r: Record): (ks: seq<string>)
    ensures |ks| == |r| && forall i :: 0 <= i < |r| ==> ks[i] == r[i].key
  {
    if r == [] then [] else [r[0].key] + Keys(r[1..])
  }

  predicate HasKey(r: Record, k: string) {
    k in Keys(r)
  }

  /** A record as JS builds it: no key twice. */
  predicate WellFormed(r: Record) {
    Distinct(Keys(r))
  }

  /** `r[k]`: the value of the property, `undefined` when it is absent. */
  function Get(r: Record, k: string): (v: Value)
    ensures !HasKey(r, k) ==> v == Undefined
  {
    if r == [] then Undefined
    else if r[0].key == k then r[0].val
    else Get(r[1..], k)
  }

  /** In a well-formed record, looking a field's key up finds that field. */
  lemma {:induction false} GetFindsField(r: Record, i: int)
    requires WellFormed(r) && 0 <= i < |r|
    ensures Get(r, r[i].key) == r[i].val
  {
    if i > 0 {
      assert Keys(r)[0] != Keys(r)[i];
      assert Keys(r[1..]) == Keys(r)[1..];
      GetFindsField(r[1..], i - 1);
    }
  }

  /** A non-empty record is its first field followed by the rest. */
  lemma ConsFacts(r: Record)
    requires r != []
    ensures Keys(r) == [r[0].key] + Keys(r[1..])
    ensures forall k :: HasKey(r, k) <==> r[0].key == k || HasKey(r[1..], k)
    ensures forall k :: Get(r, k) == if r[0].key == k then r[0].val else Get(r[1..], k)
  {
  }

  /** `{ ...r, [k]: v }`: an existing property keeps its place, a new one
      goes last. */
  function Put(r: Record, k: string, v: Value): (r': Record)
    ensures Get(r', k) == v
    ensures forall k' :: k' != k ==> Get(r', k') == Get(r, k')
    ensures Keys(r') == if HasKey(r, k) then Keys(r) else Keys(r) + [k]
  {
    if r == [] then [Field(k, v)]
    else if r[0].key == k then
      var r' := [Field(k, v)] + r[1..];
      assert r'[1..] == r[1..];
      ConsFacts(r);
      ConsFacts(r');
      r'
    else
      var rest := Put(r[1..], k, v);
      PutPastFirstGet(r, k, v, rest);
      PutPastFirstKeys(r, k, rest);
      [r[0]] + rest
  }

  /** The step of `Put` past a first field with another key: the values. */
  lemma PutPastFirstGet(r: Record, k: string, v: Value, rest: Record)
    requires r != [] && r[0].key != k
    requires Get(rest, k) == v
    requires forall k' :: k' != k ==> Get(rest, k') == Get(r[1..], k')
    ensures Get([r[0]] + rest, k) == v
    ensures forall k' :: k' != k ==> Get([r[0]] + rest, k') == Get(r, k')
  {
    var r' := [r[0]] + rest;
    assert r'[0] == r[0] && r'[1..] == rest;
    forall k' | k' != k
      ensures Get(r', k') == Get(r, k')
    {
      if r[0].key != k' {
        assert Get(r', k') == Get(rest, k');
      }
    }
  }

  /** The step of `Put` past a first field with another key: the keys. */
  lemma PutPastFirstKeys(r: Record, k: string, rest: Record)
    requires r != [] && r[0].key != k
    requires Keys(rest) == if HasKey(r[1..], k) then Keys(r[1..]) else Keys(r[1..]) + [k]
    ensures Keys([r[0]] + rest) == if HasKey(r, k) then Keys(r) else Keys(r) + [k]
  {
    var r' := [r[0]] + rest;
    assert r'[1..] == rest;
    var first, ks := r[0].key, Keys(r[1..]);
    assert Keys(r) == [first] + ks;
    assert Keys(r') == [first] + Keys(rest);
    if k in ks {
      assert k in Keys(r);
    } else {
      assert k !in Keys(r);
      assert [first] + (ks + [k]) == ([first] + ks) + [k];
    }
  }

  /** Writing a property twice keeps the second value only. */
  lemma {:induction false} PutPut(r: Record, k: string, v1: Value, v2: Value)
    ensures Put(Put(r, k, v1), k, v2) == Put(r, k, v2)
  {
    if r == [] {
      assert Put([], k, v1) == [Field(k, v1)];
    } else if r[0].key == k {
      var once := Put(r, k, v1);
      assert once == [Field(k, v1)] + r[1..];
      assert once[1..] == r[1..];
    } else {
      var once := Put(r, k, v1);
      assert once == [r[0]] + Put(r[1..], k, v1);
      assert once[1..] == Put(r[1..], k, v1);
      PutPut(r[1..], k, v1, v2);
    }
  }

  /** JS truthiness: `undefined`, `null`, `false`, `0` and `""` are falsy;
      every array, even an empty one, is truthy. */
  predicate Truthy(v: Value) {
    match v
    case Undefined => false
    case Null => false
    case Bool(b) => b
    case Num(n) => n != 0
    case Str(s) => s != ""
    case Arr(_) => true
  }

  /** `a || b` */
  function Or(a: Value, b: Value): (r: Value)
    ensures Truthy(a) ==> r == a
    ensures !Truthy(a) ==> r == b
  {
    if Truthy(a) then a else b
  }

  function DigitChar(d: nat): char
    requires d < 10
  {
    "0123456789"[d]
  }

  /** Decimal digits of a natural number, without leading zeros. */
  function NatToText(n: nat): (s: string)
    ensures |s| >= 1
    ensures n >= 10 ==> |s| >= 2
  {
    if n < 10 then [DigitChar(n)] else NatToText(n / 10) + [DigitChar(n % 10)]
  }

  /** Different numbers print differently. */
  lemma {:induction false} NatToTextInjective(a: nat, b: nat)
    requires NatToText(a) == NatToText(b)
    ensures a == b
  {
    if a >= 10 && b >= 10 {
      var sa, sb := NatToText(a), NatToText(b);
      assert sa[|sa| - 1] == DigitChar(a % 10) && sb[|sb| - 1] == DigitChar(b % 10);
      assert sa[..|sa| - 1] == NatToText(a / 10);
      assert sb[..|sb| - 1] == NatToText(b / 10);
      NatToTextInjective(a / 10, b / 10);
    }
  }

  /** `String(n)` for an integer. */
  function IntToText(n: int): string {
    if n < 0 then "-" + NatToText(-n) else NatToText(n)
  }

  /** `parts.join(",")` */
  function JoinWithCommas(parts: seq<string>): string {
    if parts == [] then ""
    else if |parts| == 1 then parts[0]
    else parts[0] + "," + JoinWithCommas(parts[1..])
  }

  /** `String(v)`. An array prints as its elements joined by commas, with
      `null` and `undefined` elements printed as empty text. */
  function ToText(v: Value): string {
    match v
    case Undefined => "undefined"
    case Null => "null"
    case Bool(b) => if b then "true" else "false"
    case Num(n) => IntToText(n)
    case Str(s) => s
    case Arr(es) =>
      JoinWithCommas(seq(|es|, i requires 0 <= i < |es| =>
        if es[i].Undefined? || es[i].Null? then "" else ToText(es[i])))
  }

  /** An array's text, element by element: nothing for no elements;
      otherwise the first element's text, empty for `null` and `undefined`,
      followed, when more elements come, by a comma and the text of the
      rest. So `String([1, null, "a"])` is `"1,,a"`. */
  lemma ArrayText(es: seq<Value>)
    ensures es == [] ==> ToText(Arr(es)) == ""
    ensures es != [] ==>
      ToText(Arr(es)) ==
        (if es[0].Undefined? || es[0].Null? then "" else ToText(es[0])) +
        (if |es| == 1 then "" else "," + ToText(Arr(es[1..])))
  {
    if |es| > 1 {
      var parts := seq(|es|, i requires 0 <= i < |es| =>
        if es[i].Undefined? || es[i].Null? then "" else ToText(es[i]));
      var rest := es[1..];
      var restParts := seq(|rest|, i requires 0 <= i < |rest| =>
        if rest[i].Undefined? || rest[i].Null? then "" else ToText(rest[i]));
      assert parts[1..] == restParts;
    }
  }
}
