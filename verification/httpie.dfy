/**
 The pure parts of the `httpie` command-line client: parsing a `key=value`
 argument into a `KvPair`, and folding the parsed pairs into the JSON body
 of a POST request.
 */
module Httpie {
  import opened Wrappers
  import opened RustStr

  /** One `key=value` argument of the `post` sub-command. */
  datatype KvPair = KvPair(k: string, v: string)

  /** The message of the error `from_str` reports for input `s`. */
  function ParseError(s: string): string {
    "Failed to parse " + s
  }

  /**
   `KvPair::from_str`: the first `'='`-segment is the key, the second the
   value; a missing segment is an error and later segments are dropped.
   */
  function FromStr(s: string): (r: Result<KvPair, string>)
    ensures r.Failure? <==> '=' !in s
    ensures r.Failure? ==> r.error == "Failed to parse " + s
    ensures r.Success? ==> '=' !in r.value.k && '=' !in r.value.v
    ensures r.Success? ==> r.value.k + ['='] + r.value.v <= s
    ensures r.Success? ==>
      var n := |r.value.k| + 1 + |r.value.v|;
      n == |s| || s[n] == '='
  {
    var split := Split(s, '=');
    match Next(split)
    case None =>
      // `split` always yields a first segment
      assert false;
      Failure(ParseError(s))
    case Some((k, split')) =>
      match Next(split')
      case None => Failure(ParseError(s))
      case Some((v, _)) =>
        assert split[0] == k && split[1] == v;
        JoinFront(split, '=');
        Success(KvPair(k, v))
  }

  /** `parse_kv_pair`: the argument parser clap is given; `?` re-raises the same error. */
  function ParseKvPair(body: string): (r: Result<KvPair, string>)
    ensures r == FromStr(body)
  {
    match FromStr(body)
    case Failure(e) => Failure(e)
    case Success(pair) => Success(pair)
  }

  /** Round trip: a key and a value free of `'='` are recovered from `k=v`, even when empty. */
  lemma FromStrRoundTrip(k: string, v: string)
    requires '=' !in k && '=' !in v
    ensures FromStr(k + "=" + v) == Success(KvPair(k, v))
  {
    SplitAfterFirst(k, v, '=');
    assert Split(v, '=') == [v];
  }

  /** Everything from a second `'='` onwards is discarded. */
  lemma FromStrDropsRest(k: string, v: string, rest: string)
    requires '=' !in k && '=' !in v
    ensures FromStr(k + "=" + v + "=" + rest) == Success(KvPair(k, v))
  {
    SplitAfterFirst(k, v + "=" + rest, '=');
    SplitAfterFirst(v, rest, '=');
    assert k + "=" + v + "=" + rest == k + "=" + (v + "=" + rest);
  }

  /** A lone `'='` gives an empty key and an empty value. */
  lemma FromStrLoneSeparator()
    ensures FromStr("=") == Success(KvPair("", ""))
  {
  }

  /** `"a="` gives the key `"a"` and an empty value. */
  lemma FromStrEmptyValue()
    ensures FromStr("a=") == Success(KvPair("a", ""))
  {
    assert "a" + "=" + "" == "a=";
    FromStrRoundTrip("a", "");
  }

  /** `"a=b=c"` gives `("a", "b")`: the third segment is dropped. */
  lemma FromStrThirdSegment()
    ensures FromStr("a=b=c") == Success(KvPair("a", "b"))
  {
    assert "a" + "=" + "b" + "=" + "c" == "a=b=c";
    FromStrDropsRest("a", "b", "c");
  }

  /** The empty string and `"ab"` have no second segment. */
  lemma FromStrMissingValue()
    ensures FromStr("") == Failure("Failed to parse ")
    ensures FromStr("ab") == Failure("Failed to parse ab")
  {
    assert "Failed to parse " + "" == "Failed to parse ";
    assert "Failed to parse " + "ab" == "Failed to parse ab";
  }

  /** `pairs[j]` is the last pair among `pairs[..n]` with its key. */
  ghost predicate LastWithKey(pairs: seq<KvPair>, n: int, j: int)
    requires 0 <= j < n <= |pairs|
  {
    forall l :: j < l < n ==> pairs[l].k != pairs[j].k
  }

  /**
   The body-building loop of `post`: every pair is inserted in order, so a
   later pair with the same key overwrites an earlier one.
   */
  method BuildBody(pairs: seq<KvPair>) returns (body: map<string, string>)
    ensures forall j :: 0 <= j < |pairs| ==> pairs[j].k in body
    ensures forall key :: key in body ==> exists j :: 0 <= j < |pairs| && pairs[j].k == key
    ensures forall j :: 0 <= j < |pairs| && LastWithKey(pairs, |pairs|, j) ==> body[pairs[j].k] == pairs[j].v
  {
    body := map[];
    var i := 0;
    while i < |pairs|
      invariant 0 <= i <= |pairs|
      invariant forall j :: 0 <= j < i ==> pairs[j].k in body
      invariant forall key :: key in body ==> exists j :: 0 <= j < i && pairs[j].k == key
      invariant forall j :: 0 <= j < i && LastWithKey(pairs, i, j) ==> body[pairs[j].k] == pairs[j].v
    {
      body := body[pairs[i].k := pairs[i].v];
      i := i + 1;
    }
  }
}
