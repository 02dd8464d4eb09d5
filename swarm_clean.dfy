/**
 * Cleaning of swarm output text: removal of ANSI colour codes (SGR escape
 * runs), both raw and written out as the six characters `\u001b`, followed by
 * the replacement of box-drawing characters with ASCII; and the same cleaning
 * mapped over the `text` field of every record of a swarm output list.
 */
module SwarmClean {
  import opened PyStr

  /** A JSON scalar as it can stand in a field of a swarm output record. */
  datatype Value = Str(s: string) | Num(n: int) | Bool(b: bool) | Null

  /** One entry of a swarm output list: a JSON object, or any other JSON value. */
  datatype Item = Dict(fields: map<string, Value>) | Scalar(v: Value)

  // ---------------------------------------------------------------------------
  // ANSI colour codes: `re.sub(intro + r'[0-9;]*m', '', text)`
  // ---------------------------------------------------------------------------

  const Esc: char := '\U{1B}'

  /** The introducer of a raw SGR run: ESC followed by `[`. */
  const RawIntro: string := [Esc, '[']

  /** The introducer of an SGR run written out as text: `\u001b[`. */
  const EscapedIntro: string := "\\u001b["

  /** A character of the class `[0-9;]`. */
  predicate IsSgrParam(c: char) {
    '0' <= c <= '9' || c == ';'
  }

  /** End of the maximal run of `[0-9;]` characters that starts at `i`. */
  function ParamsEnd(s: string, i: nat): (j: nat)
    requires i <= |s|
    ensures i <= j <= |s|
    ensures forall k :: i <= k < j ==> IsSgrParam(s[k])
    ensures j < |s| ==> !IsSgrParam(s[j])
    decreases |s| - i
  {
    if i < |s| && IsSgrParam(s[i]) then ParamsEnd(s, i + 1) else i
  }

  /**
   * Length of the run `intro [0-9;]* m` that starts at `i`, or 0 when none does.
   * The parameter class cannot contain `m`, so the greedy run is the only
   * candidate and no backtracking can find another match.
   */
  function RunAt(s: string, intro: string, i: nat): (n: nat)
    requires i <= |s|
    ensures i + n <= |s|
    ensures n > 0 ==> n > |intro| && OccursAt(s, intro, i) && s[i + n - 1] == 'm'
  {
    if OccursAt(s, intro, i) then
      var j := ParamsEnd(s, i + |intro|);
      if j < |s| && s[j] == 'm' then j + 1 - i else 0
    else 0
  }

  /** The regular expression `intro[0-9;]*m` matches exactly `s[i..j + 1]`. */
  ghost predicate RegexMatch(s: string, intro: string, i: nat, j: nat) {
    && OccursAt(s, intro, i)
    && i + |intro| <= j < |s|
    && (forall k :: i + |intro| <= k < j ==> IsSgrParam(s[k]))
    && s[j] == 'm'
  }

  /** A regex match at `i` is exactly the run `RunAt` measures: it exists iff `RunAt` is positive, and it ends where `RunAt` says. */
  lemma {:induction false} RunAtIsRegexMatch(s: string, intro: string, i: nat, j: nat)
    requires i <= |s|
    ensures RegexMatch(s, intro, i, j) <==> (RunAt(s, intro, i) > 0 && i + RunAt(s, intro, i) == j + 1)
  {
    if RegexMatch(s, intro, i, j) {
      var e := ParamsEnd(s, i + |intro|);
      assert e == j;
    }
  }

  /** `re.sub` from position `i` on: each leftmost, non-overlapping run is deleted, every other character kept. */
  function StripFrom(s: string, intro: string, i: nat): (r: string)
    requires i <= |s|
    ensures |r| <= |s| - i
    decreases |s| - i
  {
    if i == |s| then []
    else
      var n := RunAt(s, intro, i);
      if n > 0 then StripFrom(s, intro, i + n)
      else [s[i]] + StripFrom(s, intro, i + 1)
  }

  /** `re.sub(intro + r'[0-9;]*m', '', s)` */
  function StripRuns(s: string, intro: string): string
  {
    StripFrom(s, intro, 0)
  }

  /** `a` is `b` with some characters deleted and the rest kept in order. */
  ghost predicate Subsequence(a: string, b: string)
    decreases |b|
  {
    if a == [] then true
    else if b == [] then false
    else (a[0] == b[0] && Subsequence(a[1..], b[1..])) || Subsequence(a, b[1..])
  }

  lemma {:induction false} SubsequenceOfLonger(a: string, x: string, b: string)
    requires Subsequence(a, b)
    ensures Subsequence(a, x + b)
    decreases |x|
  {
    if x != [] && a != [] {
      SubsequenceOfLonger(a, x[1..], b);
      var xb := x + b;
      assert xb[1..] == x[1..] + b;
      assert Subsequence(a, xb[1..]);
      assert xb != [];
    } else if x == [] {
      assert x + b == b;
    }
  }

  lemma KeepFirst(c: char, a: string, b: string)
    requires Subsequence(a, b)
    ensures Subsequence([c] + a, [c] + b)
  {
    assert ([c] + a)[1..] == a && ([c] + b)[1..] == b;
  }

  lemma SkipRunStep(s: string, intro: string, i: nat, n: nat)
    requires i < |s| && n == RunAt(s, intro, i) && n > 0
    requires Subsequence(StripFrom(s, intro, i + n), s[i + n..])
    ensures Subsequence(StripFrom(s, intro, i), s[i..])
  {
    assert s[i..] == s[i..i + n] + s[i + n..];
    SubsequenceOfLonger(StripFrom(s, intro, i + n), s[i..i + n], s[i + n..]);
  }

  lemma KeepCharStep(s: string, intro: string, i: nat)
    requires i < |s| && RunAt(s, intro, i) == 0
    requires Subsequence(StripFrom(s, intro, i + 1), s[i + 1..])
    ensures Subsequence(StripFrom(s, intro, i), s[i..])
  {
    assert s[i..] == [s[i]] + s[i + 1..];
    KeepFirst(s[i], StripFrom(s, intro, i + 1), s[i + 1..]);
  }

  /** Removing escape runs only deletes characters: what is kept is a subsequence of the input, in order. */
  lemma {:induction false} StripKeepsOrder(s: string, intro: string, i: nat)
    requires i <= |s|
    ensures Subsequence(StripFrom(s, intro, i), s[i..])
    decreases |s| - i
  {
    if i < |s| {
      var n := RunAt(s, intro, i);
      if n > 0 {
        StripKeepsOrder(s, intro, i + n);
        SkipRunStep(s, intro, i, n);
      } else {
        StripKeepsOrder(s, intro, i + 1);
        KeepCharStep(s, intro, i);
      }
    }
  }

  /** Text in which the introducer never occurs passes through unchanged. */
  lemma {:induction false} StripWithoutIntro(s: string, intro: string, i: nat)
    requires i <= |s|
    requires forall k :: 0 <= k <= |s| ==> !OccursAt(s, intro, k)
    ensures StripFrom(s, intro, i) == s[i..]
    decreases |s| - i
  {
    if i < |s| {
      StripWithoutIntro(s, intro, i + 1);
      assert s[i..] == [s[i]] + s[i + 1..];
    }
  }

  // ---------------------------------------------------------------------------
  // Box-drawing characters
  // ---------------------------------------------------------------------------

  /** The box-drawing characters the cleaner knows: U+2500, U+2502, the six tees and crosses, and U+2550 to U+2570. */
  predicate IsBoxChar(c: char) {
    || c == '\U{2500}' || c == '\U{2502}' || c == '\U{2514}' || c == '\U{251C}'
    || c == '\U{2524}' || c == '\U{252C}' || c == '\U{2534}' || c == '\U{253C}'
    || ('\U{2550}' <= c <= '\U{2570}')
  }

  /** ASCII image of a character: lines become `-`, `|` or `=`, corners and junctions `+`, everything else stays. */
  function BoxImage(c: char): (r: char)
    ensures !IsBoxChar(r)
    ensures !IsBoxChar(c) ==> r == c
  {
    if c == '\U{2500}' then '-'
    else if c == '\U{2502}' || c == '\U{2551}' then '|'
    else if c == '\U{2550}' then '='
    else if IsBoxChar(c) then '+'
    else c
  }

  /** The table's first group, the box-drawing characters written directly. */
  const DirectBoxChars: map<char, char> := map[
    '\U{256D}' := '+', '\U{256E}' := '+', '\U{2570}' := '+', '\U{256F}' := '+',
    '\U{2500}' := '-', '\U{2502}' := '|', '\U{251C}' := '+', '\U{2514}' := '+',
    '\U{2524}' := '+', '\U{252C}' := '+', '\U{2534}' := '+', '\U{253C}' := '+',
    '\U{2550}' := '=', '\U{2554}' := '+', '\U{2557}' := '+', '\U{255A}' := '+',
    '\U{255D}' := '+', '\U{2551}' := '|', '\U{2560}' := '+', '\U{2563}' := '+',
    '\U{2566}' := '+', '\U{2569}' := '+', '\U{256C}' := '+'
  ]

  /** The table's second group, written as `\uXXXX` escapes; it repeats most of the first group. */
  const EscapedBoxChars: map<char, char> := map[
    '\U{256D}' := '+', '\U{256E}' := '+', '\U{2570}' := '+', '\U{256F}' := '+',
    '\U{2500}' := '-', '\U{2502}' := '|', '\U{251C}' := '+', '\U{2514}' := '+',
    '\U{2524}' := '+', '\U{252C}' := '+', '\U{2534}' := '+', '\U{253C}' := '+',
    '\U{2550}' := '=', '\U{2551}' := '|', '\U{2552}' := '+', '\U{2553}' := '+',
    '\U{2554}' := '+', '\U{2555}' := '+', '\U{2556}' := '+', '\U{2557}' := '+',
    '\U{2558}' := '+', '\U{2559}' := '+', '\U{255A}' := '+', '\U{255B}' := '+',
    '\U{255C}' := '+', '\U{255D}' := '+', '\U{255E}' := '+', '\U{255F}' := '+',
    '\U{2560}' := '+', '\U{2561}' := '+', '\U{2562}' := '+', '\U{2563}' := '+',
    '\U{2564}' := '+', '\U{2565}' := '+', '\U{2566}' := '+', '\U{2567}' := '+',
    '\U{2568}' := '+', '\U{2569}' := '+', '\U{256A}' := '+', '\U{256B}' := '+',
    '\U{256C}' := '+'
  ]

  /** The replacement table; a key written twice keeps its later value, as in a Python dict display. */
  const BoxChars: map<char, char> := DirectBoxChars + EscapedBoxChars

  lemma DirectImages(c: char)
    ensures c in DirectBoxChars ==> IsBoxChar(c) && DirectBoxChars[c] == BoxImage(c)
  {
  }

  lemma EscapedImages(c: char)
    ensures c in EscapedBoxChars ==> IsBoxChar(c) && EscapedBoxChars[c] == BoxImage(c)
  {
    EscapedKeys(c);
    EscapedValues(c);
  }

  lemma EscapedKeys(c: char)
    ensures c in EscapedBoxChars ==> IsBoxChar(c)
  {
  }

  lemma EscapedValues(c: char)
    ensures c in EscapedBoxChars ==> EscapedBoxChars[c] == BoxImage(c)
  {
  }

  /** Every key of the table is a box-drawing character and maps to its ASCII image. */
  lemma KeyImages(c: char)
    ensures c in BoxChars ==> IsBoxChar(c) && BoxChars[c] == BoxImage(c)
  {
    DirectImages(c);
    EscapedImages(c);
  }

  /** Every box-drawing character is a key of the table. */
  lemma BoxCharsAreKeys(c: char)
    ensures IsBoxChar(c) ==> c in BoxChars
  {
    var n := c as int;
    if 0x2550 <= n <= 0x255F {
      DoubleLinesLow(c);
      assert c in BoxChars;
    } else if 0x2560 <= n <= 0x2570 {
      DoubleLinesHigh(c);
      assert c in BoxChars;
    } else if IsBoxChar(c) {
      SingleLines(c);
      assert c in BoxChars;
    }
  }

  /** The single-line characters are all written in the first group. */
  lemma SingleLines(c: char)
    requires IsBoxChar(c) && !(0x2550 <= c as int <= 0x2570)
    ensures c in DirectBoxChars
  {
  }

  /** U+2550 to U+255F are all written in the second group. */
  lemma DoubleLinesLow(c: char)
    requires 0x2550 <= c as int <= 0x255F
    ensures c in EscapedBoxChars
  {
    var n := c as int;
    assert c == (n as char);
    if n == 0x2550 { assert c == '\U{2550}'; assert c in EscapedBoxChars; }
    else if n == 0x2551 { assert c == '\U{2551}'; assert c in EscapedBoxChars; }
    else if n == 0x2552 { assert c == '\U{2552}'; assert c in EscapedBoxChars; }
    else if n == 0x2553 { assert c == '\U{2553}'; assert c in EscapedBoxChars; }
    else if n == 0x2554 { assert c == '\U{2554}'; assert c in EscapedBoxChars; }
    else if n == 0x2555 { assert c == '\U{2555}'; assert c in EscapedBoxChars; }
    else if n == 0x2556 { assert c == '\U{2556}'; assert c in EscapedBoxChars; }
    else if n == 0x2557 { assert c == '\U{2557}'; assert c in EscapedBoxChars; }
    else if n == 0x2558 { assert c == '\U{2558}'; assert c in EscapedBoxChars; }
    else if n == 0x2559 { assert c == '\U{2559}'; assert c in EscapedBoxChars; }
    else if n == 0x255A { assert c == '\U{255A}'; assert c in EscapedBoxChars; }
    else if n == 0x255B { assert c == '\U{255B}'; assert c in EscapedBoxChars; }
    else if n == 0x255C { assert c == '\U{255C}'; assert c in EscapedBoxChars; }
    else if n == 0x255D { assert c == '\U{255D}'; assert c in EscapedBoxChars; }
    else if n == 0x255E { assert c == '\U{255E}'; assert c in EscapedBoxChars; }
    else if n == 0x255F { assert c == '\U{255F}'; assert c in EscapedBoxChars; }
    else { assert false; }
  }

  /** U+2560 to U+2570 are all written in the second group. */
  lemma DoubleLinesHigh(c: char)
    requires 0x2560 <= c as int <= 0x2570
    ensures c in EscapedBoxChars
  {
    var n := c as int;
    assert c == (n as char);
    if n == 0x2560 { assert c == '\U{2560}'; assert c in EscapedBoxChars; }
    else if n == 0x2561 { assert c == '\U{2561}'; assert c in EscapedBoxChars; }
    else if n == 0x2562 { assert c == '\U{2562}'; assert c in EscapedBoxChars; }
    else if n == 0x2563 { assert c == '\U{2563}'; assert c in EscapedBoxChars; }
    else if n == 0x2564 { assert c == '\U{2564}'; assert c in EscapedBoxChars; }
    else if n == 0x2565 { assert c == '\U{2565}'; assert c in EscapedBoxChars; }
    else if n == 0x2566 { assert c == '\U{2566}'; assert c in EscapedBoxChars; }
    else if n == 0x2567 { assert c == '\U{2567}'; assert c in EscapedBoxChars; }
    else if n == 0x2568 { assert c == '\U{2568}'; assert c in EscapedBoxChars; }
    else if n == 0x2569 { assert c == '\U{2569}'; assert c in EscapedBoxChars; }
    else if n == 0x256A { assert c == '\U{256A}'; assert c in EscapedBoxChars; }
    else if n == 0x256B { assert c == '\U{256B}'; assert c in EscapedBoxChars; }
    else if n == 0x256C { assert c == '\U{256C}'; assert c in EscapedBoxChars; }
    else if n == 0x256D { assert c == '\U{256D}'; assert c in EscapedBoxChars; }
    else if n == 0x256E { assert c == '\U{256E}'; assert c in EscapedBoxChars; }
    else if n == 0x256F { assert c == '\U{256F}'; assert c in EscapedBoxChars; }
    else if n == 0x2570 { assert c == '\U{2570}'; assert c in EscapedBoxChars; }
    else { assert false; }
  }

  /** Replacing through the whole table maps every character to its ASCII image. */
  function BoxMap(s: string): (r: string)
    ensures |r| == |s|
    ensures forall k :: 0 <= k < |s| ==> r[k] == BoxImage(s[k])
    ensures forall k :: 0 <= k < |r| ==> !IsBoxChar(r[k])
  {
    seq(|s|, k requires 0 <= k < |s| => BoxImage(s[k]))
  }

  /** The box pass is idempotent: its outputs `+ - | =` are not keys of the table. */
  lemma BoxMapIdempotent(s: string)
    ensures BoxMap(BoxMap(s)) == BoxMap(s)
  {
  }

  // ---------------------------------------------------------------------------
  // clean_swarm_text and clean_swarm_output
  // ---------------------------------------------------------------------------

  /** What `clean_swarm_text` computes for a string. */
  function CleanText(s: string): string
  {
    BoxMap(StripRuns(StripRuns(s, RawIntro), EscapedIntro))
  }

  /** What `clean_swarm_text` computes for any value: non-strings come back unchanged. */
  function CleanValue(v: Value): Value
  {
    if v.Str? then Str(CleanText(v.s)) else v
  }

  /**
   * `clean_swarm_text`: delete the raw and then the written-out SGR runs, then
   * replace, one table entry after another, every box-drawing character by
   * its ASCII image. The entries are taken in an arbitrary order: the result
   * does not depend on it.
   */
  method CleanSwarmText(v: Value) returns (r: Value)
    ensures r == CleanValue(v)
    ensures !v.Str? ==> r == v
    ensures v.Str? ==> r.Str? && |r.s| <= |v.s|
    ensures v.Str? ==> forall k :: 0 <= k < |r.s| ==> !IsBoxChar(r.s[k])
  {
    if !v.Str? {
      return v;
    }
    var text := StripRuns(v.s, RawIntro);
    text := StripRuns(text, EscapedIntro);
    text := ReplaceBoxChars(text);
    r := Str(text);
  }

  /** The replacement loop of `clean_swarm_text`: one `str.replace` per table entry, in any order. */
  method ReplaceBoxChars(stripped: string) returns (text: string)
    ensures text == BoxMap(stripped)
  {
    ImagesAreNotKeys();
    text := stripped;
    var pending := BoxChars.Keys;
    while pending != {}
      invariant pending <= BoxChars.Keys
      invariant ReplacedExcept(BoxChars, stripped, text, pending)
      decreases pending
    {
      var oldChar :| oldChar in pending;
      ReplaceStep(BoxChars, stripped, text, pending, oldChar);
      text := Replace(text, oldChar, BoxChars[oldChar]);
      pending := pending - {oldChar};
    }
    AllReplaced(stripped, text);
  }

  /** The loop state: every character whose key has been handled is replaced, every other one is still the original. */
  predicate ReplacedExcept(m: map<char, char>, stripped: string, text: string, pending: set<char>) {
    |text| == |stripped| &&
    forall k :: 0 <= k < |text| ==>
      text[k] == if stripped[k] in m && stripped[k] !in pending then m[stripped[k]] else stripped[k]
  }

  /** No replacement character is itself a key of the table. */
  lemma ImagesAreNotKeys()
    ensures forall c :: c in BoxChars ==> BoxChars[c] !in BoxChars
  {
    forall c | c in BoxChars ensures BoxChars[c] !in BoxChars {
      KeyImages(c);
      KeyImages(BoxChars[c]);
    }
  }

  /** Replacing one more key keeps the loop state, because no replacement is a key and earlier replacements are not touched again. */
  lemma ReplaceStep(m: map<char, char>, stripped: string, text: string, pending: set<char>, oldChar: char)
    requires forall c :: c in m ==> m[c] !in m
    requires oldChar in pending && pending <= m.Keys
    requires ReplacedExcept(m, stripped, text, pending)
    ensures ReplacedExcept(m, stripped, Replace(text, oldChar, m[oldChar]), pending - {oldChar})
  {
  }

  /** Once every key is handled, every character has its ASCII image. */
  lemma AllReplaced(stripped: string, text: string)
    requires ReplacedExcept(BoxChars, stripped, text, {})
    ensures text == BoxMap(stripped)
  {
    forall k | 0 <= k < |text| ensures text[k] == BoxImage(stripped[k]) {
      KeyImages(stripped[k]);
      BoxCharsAreKeys(stripped[k]);
    }
  }

  /** What `clean_swarm_output` does to one entry: a dict with `text` gets a copy with that field cleaned. */
  function CleanItem(item: Item): (r: Item)
    ensures r.Dict? <==> item.Dict?
    ensures item.Dict? ==> r.fields.Keys == item.fields.Keys
    ensures item.Dict? ==> forall key :: key in item.fields && key != "text" ==> r.fields[key] == item.fields[key]
    ensures item.Dict? && "text" in item.fields ==> r.fields["text"] == CleanValue(item.fields["text"])
    ensures !(item.Dict? && "text" in item.fields) ==> r == item
  {
    if item.Dict? && "text" in item.fields then
      Dict(item.fields["text" := CleanValue(item.fields["text"])])
    else item
  }

  /** `clean_swarm_output`: a new list of the same length and order, each entry cleaned as `CleanItem` says. */
  method CleanSwarmOutput(data: seq<Item>) returns (cleaned: seq<Item>)
    ensures |cleaned| == |data|
    ensures forall k :: 0 <= k < |data| ==> cleaned[k] == CleanItem(data[k])
  {
    cleaned := [];
    for i := 0 to |data|
      invariant |cleaned| == i
      invariant forall k :: 0 <= k < i ==> cleaned[k] == CleanItem(data[k])
    {
      var item := data[i];
      if item.Dict? && "text" in item.fields {
        var text := CleanSwarmText(item.fields["text"]);
        cleaned := cleaned + [Dict(item.fields["text" := text])];
      } else {
        cleaned := cleaned + [item];
      }
    }
  }
}
