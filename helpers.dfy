/**
 * The pure helpers of src/sampleStore/helpers.js: prefix rewriting over an
 * array, the sample validator, key/name matching and name extraction.
 */
module Helpers {
  import opened Text
  import opened Keys

  /** The JavaScript values `replacePrefix` can be handed, as array or as prefix. */
  datatype JsValue =
    | Undefined
    | Null
    | Bool(b: bool)
    | Number(n: real)
    | Str(s: string)
    | Array(elems: seq<JsValue>)

  /** `typeof v === 'string' ? v : ''` */
  function StringOr(v: JsValue): string {
    if v.Str? then v.s else ""
  }

  /** `s.replace(RegExp('^' + toRemove), toAdd)`, with `toRemove` read literally. */
  function ReplaceLeading(s: string, toRemove: string, toAdd: string): string {
    if StartsWith(toRemove, s) then toAdd + s[|toRemove|..] else s
  }

  function ReplaceElem(v: JsValue, toRemove: string, toAdd: string): JsValue {
    if v.Str? then Str(ReplaceLeading(v.s, toRemove, toAdd)) else v
  }

  /** replacePrefix(arr, pfxToRemove, pfxToAdd) */
  function ReplacePrefix(arr: JsValue, pfxToRemove: JsValue, pfxToAdd: JsValue): JsValue {
    if !arr.Array? || |arr.elems| == 0 then arr
    else
      var toRemove := StringOr(pfxToRemove);
      var toAdd := StringOr(pfxToAdd);
      Array(seq(|arr.elems|, i requires 0 <= i < |arr.elems| => ReplaceElem(arr.elems[i], toRemove, toAdd)))
  }

  /** replacePrefix applied to an array of strings with string prefixes, as its callers use it. */
  function ReplacePrefixAll(ss: seq<string>, toRemove: string, toAdd: string): (r: seq<string>)
    ensures |r| == |ss|
  {
    seq(|ss|, i requires 0 <= i < |ss| => ReplaceLeading(ss[i], toRemove, toAdd))
  }

  function Strs(ss: seq<string>): seq<JsValue> {
    seq(|ss|, i requires 0 <= i < |ss| => Str(ss[i]))
  }

  /** The string-array form agrees with the general one. */
  lemma ReplacePrefixOfStrings(ss: seq<string>, toRemove: string, toAdd: string)
    ensures ReplacePrefix(Array(Strs(ss)), Str(toRemove), Str(toAdd))
         == Array(Strs(ReplacePrefixAll(ss, toRemove, toAdd)))
  {
    if ss == [] {
      assert Strs(ReplacePrefixAll(ss, toRemove, toAdd)) == [];
    }
  }

  /** Anything other than a non-empty array comes back as it went in. */
  lemma ReplacePrefixNonArray(arr: JsValue, pfxToRemove: JsValue, pfxToAdd: JsValue)
    requires !arr.Array? || arr.elems == []
    ensures ReplacePrefix(arr, pfxToRemove, pfxToAdd) == arr
  {
  }

  /**
   * Element by element: the length is kept, non-strings are kept, a string
   * with the (string-or-empty) prefix has it replaced and any other string is kept.
   */
  lemma ReplacePrefixElems(arr: JsValue, pfxToRemove: JsValue, pfxToAdd: JsValue, i: nat)
    requires arr.Array? && i < |arr.elems|
    ensures var r := ReplacePrefix(arr, pfxToRemove, pfxToAdd);
      && r.Array? && |r.elems| == |arr.elems|
      && (!arr.elems[i].Str? ==> r.elems[i] == arr.elems[i])
      && (arr.elems[i].Str? && StartsWith(StringOr(pfxToRemove), arr.elems[i].s) ==>
            r.elems[i] == Str(StringOr(pfxToAdd) + arr.elems[i].s[|StringOr(pfxToRemove)|..]))
      && (arr.elems[i].Str? && !StartsWith(StringOr(pfxToRemove), arr.elems[i].s) ==>
            r.elems[i] == arr.elems[i])
  {
  }

  /** With nothing (or a non-string) to remove, every string element is prefixed. */
  lemma ReplacePrefixPrepends(arr: JsValue, pfxToRemove: JsValue, pfxToAdd: JsValue, i: nat)
    requires StringOr(pfxToRemove) == ""
    requires arr.Array? && i < |arr.elems| && arr.elems[i].Str?
    ensures ReplacePrefix(arr, pfxToRemove, pfxToAdd).elems[i] == Str(StringOr(pfxToAdd) + arr.elems[i].s)
  {
    assert StartsWith("", arr.elems[i].s);
  }

  /** Both prefixes empty or non-string: the identity. */
  lemma {:induction false} ReplacePrefixIdentity(arr: JsValue, pfxToRemove: JsValue, pfxToAdd: JsValue)
    requires StringOr(pfxToRemove) == "" && StringOr(pfxToAdd) == ""
    ensures ReplacePrefix(arr, pfxToRemove, pfxToAdd) == arr
  {
    if arr.Array? && |arr.elems| > 0 {
      var r := ReplacePrefix(arr, pfxToRemove, pfxToAdd);
      forall i | 0 <= i < |arr.elems| ensures r.elems[i] == arr.elems[i] {
        if arr.elems[i].Str? {
          assert StartsWith("", arr.elems[i].s);
          assert arr.elems[i].s[0..] == arr.elems[i].s;
        }
      }
      assert r.elems == arr.elems;
    }
  }

  /** Replacing a prefix and then replacing it back restores the string. */
  lemma ReplaceLeadingInverse(s: string, toRemove: string, toAdd: string)
    requires StartsWith(toRemove, s)
    ensures ReplaceLeading(ReplaceLeading(s, toRemove, toAdd), toAdd, toRemove) == s
  {
    var t := toAdd + s[|toRemove|..];
    StartsWithSelf(toAdd, s[|toRemove|..]);
    assert t[|toAdd|..] == s[|toRemove|..];
    assert s == s[..|toRemove|] + s[|toRemove|..];
  }

  /** Stripping `samsto:subject:` and prepending `samsto:subaspmap:` maps a subject key to its index key. */
  lemma SubjectKeyToIndexKey(name: string)
    ensures ReplaceLeading(ReplaceLeading(SubjectPfx + name, SubjectPfx, ""), "", SubAspMapPfx)
         == SubAspMapPfx + name
  {
    StartsWithSelf(SubjectPfx, name);
    assert (SubjectPfx + name)[|SubjectPfx|..] == name;
    assert StartsWith("", name);
  }

  // The array the helper's tests rewrite: ['blue', 'red', 'yellow', '', null, undefined, 22, 'green'].
  const TestArray: JsValue :=
    Array([Str("blue"), Str("red"), Str("yellow"), Str(""), Null, Undefined, Number(22.0), Str("green")])

  /** replacePrefix(arr, '', 'x') prefixes every string, the empty one included. */
  lemma ReplacePrefixTestAdd()
    ensures ReplacePrefix(TestArray, Str(""), Str("x"))
         == Array([Str("xblue"), Str("xred"), Str("xyellow"), Str("x"), Null, Undefined, Number(22.0), Str("xgreen")])
  {
    var r := ReplacePrefix(TestArray, Str(""), Str("x"));
    var want := [Str("xblue"), Str("xred"), Str("xyellow"), Str("x"), Null, Undefined, Number(22.0), Str("xgreen")];
    forall i | 0 <= i < 8 ensures r.elems[i] == want[i] {
      ReplacePrefixElems(TestArray, Str(""), Str("x"), i);
      if TestArray.elems[i].Str? {
        ReplacePrefixPrepends(TestArray, Str(""), Str("x"), i);
      }
    }
  }

  /** replacePrefix(arr, 'r', 'belov') turns 'red' into 'beloved' and leaves 'green' alone. */
  lemma ReplacePrefixTestReplace()
    ensures ReplacePrefix(TestArray, Str("r"), Str("belov"))
         == Array([Str("blue"), Str("beloved"), Str("yellow"), Str(""), Null, Undefined, Number(22.0), Str("green")])
  {
    var r := ReplacePrefix(TestArray, Str("r"), Str("belov"));
    var want := [Str("blue"), Str("beloved"), Str("yellow"), Str(""), Null, Undefined, Number(22.0), Str("green")];
    assert StartsWith("r", "red") && "red"[1..] == "ed";
    NotStartsWith("r", "blue", 0);
    NotStartsWith("r", "yellow", 0);
    NotStartsWith("r", "", 0);
    NotStartsWith("r", "green", 0);
    forall i | 0 <= i < 8 ensures r.elems[i] == want[i] {
      ReplacePrefixElems(TestArray, Str("r"), Str("belov"), i);
    }
  }

  /** replacePrefix(arr, 'yell', '') strips the prefix from 'yellow' only. */
  lemma ReplacePrefixTestRemove()
    ensures ReplacePrefix(TestArray, Str("yell"), Str(""))
         == Array([Str("blue"), Str("red"), Str("ow"), Str(""), Null, Undefined, Number(22.0), Str("green")])
  {
    var r := ReplacePrefix(TestArray, Str("yell"), Str(""));
    var want := [Str("blue"), Str("red"), Str("ow"), Str(""), Null, Undefined, Number(22.0), Str("green")];
    assert StartsWith("yell", "yellow") && "yellow"[4..] == "ow";
    NotStartsWith("yell", "blue", 0);
    NotStartsWith("yell", "red", 0);
    NotStartsWith("yell", "", 0);
    NotStartsWith("yell", "green", 0);
    forall i | 0 <= i < 8 ensures r.elems[i] == want[i] {
      ReplacePrefixElems(TestArray, Str("yell"), Str(""), i);
    }
  }

  /** A field the JavaScript code reads as truthy: present and not the empty string. */
  predicate Truthy(sample: map<string, string>, field: string) {
    field in sample && sample[field] != ""
  }

  /** validateSample(sample), on the fields HGETALL returns. */
  predicate ValidateSample(sample: map<string, string>) {
    && Truthy(sample, "name")
    && IndexOf(sample["name"], '|') >= 1
    && Truthy(sample, "subjectId")
    && Truthy(sample, "aspectId")
  }

  /**
   * The sample is valid exactly when its name contains '|' but does not start
   * with it, and both ids are present. Nothing else about the name is checked:
   * an empty aspect part, or a second '|', passes.
   */
  lemma ValidateSampleMeaning(sample: map<string, string>)
    ensures ValidateSample(sample) <==>
      && "name" in sample && '|' in sample["name"] && sample["name"][0] != '|'
      && Truthy(sample, "subjectId") && Truthy(sample, "aspectId")
  {
    if "name" in sample && '|' in sample["name"] {
      var name := sample["name"];
      var i := IndexOf(name, '|');
      if i >= 1 {
        assert name[..i][0] == name[0];
      }
    }
  }

  /** sampleKeyNameMatch(key, name): `key.slice(14) === name.toLowerCase()`. */
  predicate SampleKeyNameMatch(key: string, name: string) {
    (if |SamplePfx| <= |key| then key[|SamplePfx|..] else "") == ToLower(name)
  }

  /** For a record key, the match compares the rest of the key with the case-folded name. */
  lemma SampleKeyNameMatchMeaning(rest: string, name: string)
    ensures SampleKeyNameMatch(SampleKey(rest), name) <==> rest == ToLower(name)
  {
  }

  /** Only the name is case-folded, never the key. */
  lemma SampleKeyNameMatchFoldsNameOnly()
    ensures SampleKeyNameMatch("samsto:sample:a|b", "A|B")
    ensures !SampleKeyNameMatch("samsto:sample:A|B", "A|B")
  {
    assert ToLower("A|B") == "a|b";
  }

  /** getNameFromKey(key): the last ':'-separated segment. */
  function GetNameFromKey(key: string): string {
    var parts := Split(key, ':');
    parts[|parts| - 1]
  }

  lemma {:induction false} JoinLast(parts: seq<string>, sep: char)
    requires |parts| >= 2
    ensures Join(parts, sep) == Join(parts[..|parts| - 1], sep) + [sep] + parts[|parts| - 1]
  {
    if |parts| > 2 {
      JoinLast(parts[1..], sep);
      assert parts[1..][..|parts| - 2] == parts[..|parts| - 1][1..];
    }
  }

  /** The result is the text after the last ':', or the whole key when it has none. */
  lemma GetNameFromKeyMeaning(key: string)
    ensures var r := GetNameFromKey(key);
      && ':' !in r
      && (':' !in key ==> r == key)
      && (':' in key ==> |r| < |key| && key[|key| - |r| - 1] == ':' && key[|key| - |r|..] == r)
  {
    var parts := Split(key, ':');
    var r := parts[|parts| - 1];
    JoinSplit(key, ':');
    SplitPartsFree(key, ':');
    if |parts| == 1 {
      assert key == r;
    } else {
      JoinLast(parts, ':');
      var front := Join(parts[..|parts| - 1], ':');
      assert key == front + [':'] + r;
      assert key[|key| - |r| - 1] == ':';
      assert key[|key| - |r|..] == r;
      assert ':' in key;
    }
  }
}
