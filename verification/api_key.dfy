/**
 * The key extraction of server/API_KEY.js: the first match of the pattern
 * API_KEY\s*=\s*["']([^"']+)["'] in the text of API_KEY.py, or '' when
 * nothing matches, exported under three names.
 *
 * The model starts from the file's text; reading the file is left out.
 */
module ApiKey {
  import opened Wrappers

  /** What `\s` matches in a JavaScript regular expression: WhiteSpace and LineTerminator. */
  predicate IsJsSpace(c: char) {
    var n := c as int;
    (0x09 <= n <= 0x0D) || n == 0x20 || n == 0xA0 || n == 0x1680 || (0x2000 <= n <= 0x200A)
    || n == 0x2028 || n == 0x2029 || n == 0x202F || n == 0x205F || n == 0x3000 || n == 0xFEFF
  }

  /** The class ["']: either quote character, for the opening and the closing quote alike. */
  predicate IsQuote(c: char) {
    c == '"' || c == '\''
  }

  const Name: string := "API_KEY"

  // ---------------------------------------------------------------------
  // The pattern, stated as the regular expression reads
  // ---------------------------------------------------------------------

  /**
   * The pattern matches at position i with the name at [i, i+7), '=' at j,
   * the opening quote at k and the closing quote at m; the capture is
   * text[k+1..m].
   */
  ghost predicate MatchShape(text: string, i: int, j: int, k: int, m: int) {
    && 0 <= i && i + |Name| <= j < k && k + 1 < m < |text|
    && text[i..i + |Name|] == Name
    && (forall p | i + |Name| <= p < j :: IsJsSpace(text[p]))
    && text[j] == '='
    && (forall p | j + 1 <= p < k :: IsJsSpace(text[p]))
    && IsQuote(text[k])
    && (forall p | k + 1 <= p < m :: !IsQuote(text[p]))
    && IsQuote(text[m])
  }

  /** Some way of matching the pattern at position i captures `key`. */
  ghost predicate Matches(text: string, i: int, key: string) {
    exists j, k, m :: MatchShape(text, i, j, k, m) && key == text[k + 1..m]
  }

  // ---------------------------------------------------------------------
  // The deterministic matcher
  // ---------------------------------------------------------------------

  /** `\s*` from position i, greedily: the first position that holds no whitespace. */
  function SkipSpaces(text: string, i: nat): (j: nat)
    requires i <= |text|
    ensures i <= j <= |text|
    ensures forall p | i <= p < j :: IsJsSpace(text[p])
    ensures j == |text| || !IsJsSpace(text[j])
    decreases |text| - i
  {
    if i < |text| && IsJsSpace(text[i]) then SkipSpaces(text, i + 1) else i
  }

  /** `[^"']*` from position i, greedily: the first position that holds a quote. */
  function SkipNonQuotes(text: string, i: nat): (j: nat)
    requires i <= |text|
    ensures i <= j <= |text|
    ensures forall p | i <= p < j :: !IsQuote(text[p])
    ensures j == |text| || IsQuote(text[j])
    decreases |text| - i
  {
    if i < |text| && !IsQuote(text[i]) then SkipNonQuotes(text, i + 1) else i
  }

  /**
   * The capture of the pattern anchored at position i, if it matches there.
   * Every class in the pattern is followed by a character that class cannot
   * match, so taking each class greedily loses no match.
   */
  function MatchAt(text: string, i: nat): Option<string>
    requires i <= |text|
  {
    if !(i + |Name| <= |text| && text[i..i + |Name|] == Name) then None
    else
      var j := SkipSpaces(text, i + |Name|);
      if j == |text| || text[j] != '=' then None
      else
        var k := SkipSpaces(text, j + 1);
        if k == |text| || !IsQuote(text[k]) then None
        else
          var m := SkipNonQuotes(text, k + 1);
          if m == k + 1 || m == |text| then None
          else Some(text[k + 1..m])
  }

  lemma {:induction false} SkipSpacesStops(text: string, i: nat, j: nat)
    requires i <= j < |text|
    requires forall p | i <= p < j :: IsJsSpace(text[p])
    requires !IsJsSpace(text[j])
    ensures SkipSpaces(text, i) == j
    decreases j - i
  {
    if i < j {
      SkipSpacesStops(text, i + 1, j);
    }
  }

  lemma {:induction false} SkipNonQuotesStops(text: string, i: nat, j: nat)
    requires i <= j < |text|
    requires forall p | i <= p < j :: !IsQuote(text[p])
    requires IsQuote(text[j])
    ensures SkipNonQuotes(text, i) == j
    decreases j - i
  {
    if i < j {
      SkipNonQuotesStops(text, i + 1, j);
    }
  }

  /** What the matcher returns is a capture of the pattern at that position. */
  lemma MatchAtSound(text: string, i: nat)
    requires i <= |text| && MatchAt(text, i).Some?
    ensures Matches(text, i, MatchAt(text, i).value)
  {
    var j := SkipSpaces(text, i + |Name|);
    var k := SkipSpaces(text, j + 1);
    var m := SkipNonQuotes(text, k + 1);
    assert MatchShape(text, i, j, k, m);
  }

  /** Any capture of the pattern at a position is what the matcher returns there. */
  lemma MatchAtComplete(text: string, i: nat, key: string, j: int, k: int, m: int)
    requires i <= |text| && MatchShape(text, i, j, k, m) && key == text[k + 1..m]
    ensures MatchAt(text, i) == Some(key)
  {
    SkipSpacesStops(text, i + |Name|, j);
    SkipSpacesStops(text, j + 1, k);
    SkipNonQuotesStops(text, k + 1, m);
  }

  /**
   * The matcher is exact: it returns `key` at position i if and only if the
   * pattern can match at i capturing `key`. So at most one capture exists
   * per position.
   */
  lemma MatchAtExact(text: string, i: nat, key: string)
    requires i <= |text|
    ensures MatchAt(text, i) == Some(key) <==> Matches(text, i, key)
  {
    if MatchAt(text, i) == Some(key) {
      MatchAtSound(text, i);
    }
    if Matches(text, i, key) {
      var j, k, m :| MatchShape(text, i, j, k, m) && key == text[k + 1..m];
      MatchAtComplete(text, i, key, j, k, m);
    }
  }

  // ---------------------------------------------------------------------
  // Leftmost match and the exported constant
  // ---------------------------------------------------------------------

  /** The capture at the leftmost position at or after i where the pattern matches. */
  function FirstMatchFrom(text: string, i: nat): (r: Option<string>)
    requires i <= |text|
    ensures r.None? ==> forall p | i <= p <= |text| :: MatchAt(text, p).None?
    ensures r.Some? ==> exists p | i <= p <= |text| ::
              MatchAt(text, p) == r && forall q | i <= q < p :: MatchAt(text, q).None?
    decreases |text| - i
  {
    if i == |text| then None
    else if MatchAt(text, i).Some? then MatchAt(text, i)
    else FirstMatchFrom(text, i + 1)
  }

  /** `apiKeyMatch ? apiKeyMatch[1] : ''`. */
  function ExtractKey(text: string): string {
    match FirstMatchFrom(text, 0)
    case Some(key) => key
    case None => ""
  }

  /** The key is empty exactly when the pattern matches nowhere in the text. */
  lemma ExtractKeyEmpty(text: string)
    ensures ExtractKey(text) == "" <==>
              forall i: nat, key: string | i <= |text| :: !Matches(text, i, key)
  {
    if ExtractKey(text) == "" {
      forall i: nat, key: string | i <= |text| ensures !Matches(text, i, key) {
        MatchAtExact(text, i, key);
      }
    } else {
      var p :| 0 <= p <= |text| && MatchAt(text, p) == Some(ExtractKey(text));
      MatchAtExact(text, p, ExtractKey(text));
    }
  }

  /** When the pattern matches, the key is the capture at the leftmost matching position. */
  lemma ExtractKeyLeftmost(text: string, i: nat, key: string)
    requires i <= |text| && Matches(text, i, key)
    requires forall p: nat, other: string | p < i :: !Matches(text, p, other)
    ensures ExtractKey(text) == key
  {
    MatchAtExact(text, i, key);
    forall p | 0 <= p < i ensures MatchAt(text, p).None? {
      if MatchAt(text, p).Some? {
        MatchAtExact(text, p, MatchAt(text, p).value);
      }
    }
    var r := FirstMatchFrom(text, 0);
    var p :| 0 <= p <= |text| && MatchAt(text, p) == r && forall q | 0 <= q < p :: MatchAt(text, q).None?;
    assert p == i;
  }

  /** `key` occurs in `text` immediately before a quote character. */
  ghost predicate FollowedByQuote(text: string, key: string) {
    exists m | |key| <= m < |text| :: text[m - |key|..m] == key && IsQuote(text[m])
  }

  /** A capture holds no quote character and is followed in the text by a quote. */
  lemma MatchAtShape(text: string, p: nat)
    requires p <= |text| && MatchAt(text, p).Some?
    ensures forall c | c in MatchAt(text, p).value :: !IsQuote(c)
    ensures FollowedByQuote(text, MatchAt(text, p).value)
  {
    var key := MatchAt(text, p).value;
    var j := SkipSpaces(text, p + |Name|);
    var k := SkipSpaces(text, j + 1);
    var m := SkipNonQuotes(text, k + 1);
    assert key == text[k + 1..m] && m < |text| && IsQuote(text[m]);
    assert text[m - |key|..m] == key;
  }

  /**
   * A non-empty key holds no quote character and is followed in the text by
   * a quote.
   */
  lemma ExtractKeyShape(text: string)
    requires ExtractKey(text) != ""
    ensures forall c | c in ExtractKey(text) :: !IsQuote(c)
    ensures FollowedByQuote(text, ExtractKey(text))
  {
    var r := FirstMatchFrom(text, 0);
    assert r == Some(ExtractKey(text));
    var p :| 0 <= p <= |text| && MatchAt(text, p) == r && forall q | 0 <= q < p :: MatchAt(text, q).None?;
    MatchAtShape(text, p);
  }

  /**
   * An assignment `API_KEY <ws> = <ws> <quote> key <quote>` is read whatever
   * whitespace surrounds '=' (none included), whichever quote opens and
   * closes it, and whatever precedes the name, provided no earlier match
   * can start there: `GEMINI_API_KEY = "k"` yields k.
   */
  lemma {:induction false} ExtractKeyOfAssignment(
    prefix: string, ws1: string, ws2: string, open: char, key: string, close: char, rest: string)
    requires 'A' !in prefix
    requires forall c | c in ws1 :: IsJsSpace(c)
    requires forall c | c in ws2 :: IsJsSpace(c)
    requires IsQuote(open) && IsQuote(close)
    requires key != [] && forall c | c in key :: !IsQuote(c)
    ensures ExtractKey(prefix + Name + ws1 + "=" + ws2 + [open] + key + [close] + rest) == key
  {
    var text := prefix + Name + ws1 + "=" + ws2 + [open] + key + [close] + rest;
    var i := |prefix|;
    var j := i + |Name| + |ws1|;
    var k := j + 1 + |ws2|;
    var m := k + 1 + |key|;
    assert text[i..i + |Name|] == Name;
    forall p | i + |Name| <= p < j ensures IsJsSpace(text[p]) {
      assert text[p] == ws1[p - i - |Name|];
    }
    forall p | j + 1 <= p < k ensures IsJsSpace(text[p]) {
      assert text[p] == ws2[p - j - 1];
    }
    forall p | k + 1 <= p < m ensures !IsQuote(text[p]) {
      assert text[p] == key[p - k - 1];
    }
    assert text[k + 1..m] == key;
    assert MatchShape(text, i, j, k, m);
    forall p: nat, other: string | p < i ensures !Matches(text, p, other) {
      assert text[p] == prefix[p];
      assert p + |Name| <= |text| ==> text[p..p + |Name|][0] == text[p];
      assert MatchAt(text, p).None?;
      MatchAtExact(text, p, other);
    }
    ExtractKeyLeftmost(text, i, key);
  }

  /** The opening and closing quotes are not required to agree. */
  lemma MismatchedQuotes(text: string)
    requires text == "API_KEY = \"abc'"
    ensures ExtractKey(text) == "abc"
  {
    assert text[..7] == Name;
    assert MatchShape(text, 0, 8, 10, 14);
    assert text[11..14] == "abc";
    ExtractKeyLeftmost(text, 0, "abc");
  }

  /** The name is not anchored: a longer identifier ending in API_KEY matches too. */
  lemma LongerIdentifier(text: string)
    requires text == "GEMINI_API_KEY=\"xyz\""
    ensures ExtractKey(text) == "xyz"
  {
    assert text == "GEMINI_" + Name + "" + "=" + "" + ['"'] + "xyz" + ['"'] + "";
    ExtractKeyOfAssignment("GEMINI_", "", "", '"', "xyz", '"', "");
  }

  // ---------------------------------------------------------------------
  // module.exports
  // ---------------------------------------------------------------------

  datatype Exports = Exports(apiKey: string, geminiApiKey: string, mapsApiKey: string)

  /** The exported object: the extracted key under its own name and two aliases. */
  function ModuleExports(fileText: string): (e: Exports)
    ensures e.apiKey == ExtractKey(fileText)
    ensures e.geminiApiKey == e.apiKey && e.mapsApiKey == e.apiKey
  {
    var key := ExtractKey(fileText);
    Exports(key, key, key)
  }
}
