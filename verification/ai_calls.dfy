/**
 * The glossary table and the CSV row selection of server/ai_calls.py.
 *
 * The model starts from the rows that `csv.reader` yields for the language
 * model's answer: a sequence of rows, each a sequence of column strings.
 */
module AiCalls {
  import opened Wrappers

  // ---------------------------------------------------------------------
  // Python's str.strip() with no argument
  // ---------------------------------------------------------------------

  /** The characters for which Python's `str.isspace` holds: those that `strip()` removes. */
  predicate IsPySpace(c: char) {
    var n := c as int;
    (0x09 <= n <= 0x0D) || (0x1C <= n <= 0x20) || n == 0x85 || n == 0xA0 || n == 0x1680
    || (0x2000 <= n <= 0x200A) || n == 0x2028 || n == 0x2029 || n == 0x202F || n == 0x205F
    || n == 0x3000
  }

  predicate AllSpace(s: string) {
    forall p | 0 <= p < |s| :: IsPySpace(s[p])
  }

  /** No leading and no trailing whitespace. */
  predicate Stripped(s: string) {
    s == [] || (!IsPySpace(s[0]) && !IsPySpace(s[|s| - 1]))
  }

  /** How many whitespace characters `s` starts with. */
  function LeadingSpaces(s: string): (n: nat)
    ensures n <= |s|
  {
    if s != [] && IsPySpace(s[0]) then 1 + LeadingSpaces(s[1..]) else 0
  }

  /** How many whitespace characters `s` ends with. */
  function TrailingSpaces(s: string): (n: nat)
    ensures n <= |s|
  {
    if s != [] && IsPySpace(s[|s| - 1]) then 1 + TrailingSpaces(s[..|s| - 1]) else 0
  }

  lemma {:induction false} LeadingSpacesFacts(s: string)
    ensures AllSpace(s[..LeadingSpaces(s)])
    ensures LeadingSpaces(s) == |s| || !IsPySpace(s[LeadingSpaces(s)])
  {
    if s != [] && IsPySpace(s[0]) {
      var t := s[1..];
      LeadingSpacesFacts(t);
      forall p | 1 <= p < LeadingSpaces(s) ensures IsPySpace(s[p]) {
        assert s[p] == t[..LeadingSpaces(t)][p - 1];
      }
    }
  }

  lemma {:induction false} TrailingSpacesFacts(s: string)
    ensures AllSpace(s[|s| - TrailingSpaces(s)..])
    ensures TrailingSpaces(s) == |s| || !IsPySpace(s[|s| - TrailingSpaces(s) - 1])
  {
    if s != [] && IsPySpace(s[|s| - 1]) {
      var t := s[..|s| - 1];
      TrailingSpacesFacts(t);
      var n := TrailingSpaces(s);
      forall p | |s| - n <= p < |s| - 1 ensures IsPySpace(s[p]) {
        assert s[p] == t[|t| - TrailingSpaces(t)..][p - (|t| - TrailingSpaces(t))];
      }
    }
  }

  /** `s.strip()`: the part of `s` left once the whitespace at both ends is removed. */
  function Strip(s: string): string {
    var rest := s[LeadingSpaces(s)..];
    rest[..|rest| - TrailingSpaces(rest)]
  }

  /** What `strip()` returns has no whitespace left at either end. */
  lemma StripResultStripped(s: string)
    ensures Stripped(Strip(s))
  {
    var i := LeadingSpaces(s);
    var rest := s[i..];
    var j := |rest| - TrailingSpaces(rest);
    LeadingSpacesFacts(s);
    TrailingSpacesFacts(rest);
    var r := Strip(s);
    assert r == rest[..j];
    if r != [] {
      assert r[0] == rest[0] == s[i];
      assert r[|r| - 1] == rest[j - 1];
    }
  }

  /** `strip()` removes whitespace at the two ends and nothing else. */
  lemma StripRemovesOnlyEdgeSpace(s: string)
    ensures exists i | 0 <= i <= |s| - |Strip(s)| ::
              Strip(s) == s[i..i + |Strip(s)|] && AllSpace(s[..i]) && AllSpace(s[i + |Strip(s)|..])
  {
    var i := LeadingSpaces(s);
    var rest := s[i..];
    var j := |rest| - TrailingSpaces(rest);
    LeadingSpacesFacts(s);
    TrailingSpacesFacts(rest);
    assert Strip(s) == s[i..i + j];
    assert s[i + j..] == rest[j..];
  }

  /** Stripping text that carries no whitespace at its ends changes nothing. */
  lemma StripStripped(s: string)
    requires Stripped(s)
    ensures Strip(s) == s
  {
    assert LeadingSpaces(s) == 0;
    assert TrailingSpaces(s) == 0;
    assert s[0..] == s;
  }

  // ---------------------------------------------------------------------
  // Row selection shared by readArticle and findArticles
  // ---------------------------------------------------------------------

  type Row = seq<string>

  /** The guard of both loops: `i > 1 and len(row) >= 2`. */
  predicate Qualifies(rows: seq<Row>, i: int) {
    1 < i < |rows| && |rows[i]| >= 2
  }

  /** The stripped first and second column of a row; further columns are ignored. */
  function StripPair(row: Row): (string, string)
    requires |row| >= 2
  {
    (Strip(row[0]), Strip(row[1]))
  }

  /**
   * The pairs the two loops take from `rows`, in row order: the stripped
   * first two columns of every qualifying row. Defined on the last row so
   * that it follows the loops one iteration at a time.
   */
  function Selected(rows: seq<Row>): seq<(string, string)>
  {
    if rows == [] then []
    else
      var i := |rows| - 1;
      Selected(rows[..i]) + (if Qualifies(rows, i) then [StripPair(rows[i])] else [])
  }

  /** One more row extends the selection by that row's pair exactly when it qualifies. */
  lemma SelectedStep(rows: seq<Row>, i: nat)
    requires i < |rows|
    ensures Selected(rows[..i + 1]) ==
              Selected(rows[..i]) + (if Qualifies(rows, i) then [StripPair(rows[i])] else [])
  {
    assert rows[..i + 1][..i] == rows[..i];
  }

  /** Every selected name and value carries no surrounding whitespace. */
  lemma {:induction false} SelectedStripped(rows: seq<Row>)
    ensures forall k | 0 <= k < |Selected(rows)| ::
              Stripped(Selected(rows)[k].0) && Stripped(Selected(rows)[k].1)
  {
    if rows != [] {
      var i := |rows| - 1;
      SelectedStripped(rows[..i]);
      if Qualifies(rows, i) {
        StripResultStripped(rows[i][0]);
        StripResultStripped(rows[i][1]);
      }
    }
  }

  /** The indices of the qualifying rows, in increasing order. */
  function QualifyingIndices(rows: seq<Row>): (r: seq<nat>)
    ensures forall a, b | 0 <= a < b < |r| :: r[a] < r[b]
    ensures forall k | 0 <= k < |r| :: Qualifies(rows, r[k])
    ensures forall i | 0 <= i < |rows| && Qualifies(rows, i) :: i in r
  {
    if rows == [] then []
    else
      var i := |rows| - 1;
      var r0 := QualifyingIndices(rows[..i]);
      assert forall k | 0 <= k < |r0| :: r0[k] < i && Qualifies(rows, r0[k]);
      assert forall j | 0 <= j < i && Qualifies(rows, j) :: Qualifies(rows[..i], j);
      r0 + (if Qualifies(rows, i) then [i] else [])
  }

  /**
   * Selection is exactly one pair per qualifying row, in row order: the k-th
   * pair is the stripped first two columns of the k-th qualifying row.
   */
  lemma {:induction false} SelectedByIndex(rows: seq<Row>)
    ensures |Selected(rows)| == |QualifyingIndices(rows)|
    ensures forall k | 0 <= k < |Selected(rows)| ::
              Selected(rows)[k] == StripPair(rows[QualifyingIndices(rows)[k]])
  {
    if rows != [] {
      var i := |rows| - 1;
      var prefix := rows[..i];
      SelectedByIndex(prefix);
      var q := QualifyingIndices(prefix);
      var sel := Selected(prefix);
      var extra := if Qualifies(rows, i) then [StripPair(rows[i])] else [];
      assert Selected(rows) == sel + extra;
      assert QualifyingIndices(rows) == q + if Qualifies(rows, i) then [i] else [];
      forall k | 0 <= k < |sel|
        ensures Selected(rows)[k] == StripPair(rows[QualifyingIndices(rows)[k]])
      {
        assert prefix[q[k]] == rows[q[k]];
      }
    }
  }

  /**
   * Only the stripped first two columns of qualifying rows matter: rows 0
   * and 1, rows with fewer than two columns, columns after the second and
   * surrounding whitespace never affect the selection.
   */
  lemma {:induction false} SelectedDependsOnlyOnQualifyingColumns(a: seq<Row>, b: seq<Row>)
    requires |a| == |b|
    requires forall i | 0 <= i < |a| :: Qualifies(a, i) == Qualifies(b, i)
    requires forall i | 0 <= i < |a| && Qualifies(a, i) && Qualifies(b, i) ::
               StripPair(a[i]) == StripPair(b[i])
    ensures Selected(a) == Selected(b)
  {
    if a != [] {
      var i := |a| - 1;
      forall j | 0 <= j < i
        ensures Qualifies(a[..i], j) == Qualifies(b[..i], j)
        ensures Qualifies(a[..i], j) ==> StripPair(a[..i][j]) == StripPair(b[..i][j])
      {
        assert Qualifies(a, j) == Qualifies(b, j);
      }
      SelectedDependsOnlyOnQualifyingColumns(a[..i], b[..i]);
    }
  }

  /** In particular the first two rows never contribute, whatever they hold. */
  lemma HeaderRowsIgnored(rows: seq<Row>, first: Row, second: Row)
    requires |rows| >= 2
    ensures Selected(rows) == Selected([first, second] + rows[2..])
  {
    var other := [first, second] + rows[2..];
    forall i | 0 <= i < |rows|
      ensures Qualifies(rows, i) == Qualifies(other, i)
      ensures Qualifies(rows, i) ==> StripPair(rows[i]) == StripPair(other[i])
    {
      if i >= 2 {
        assert other[i] == rows[i];
      }
    }
    SelectedDependsOnlyOnQualifyingColumns(rows, other);
  }

  // ---------------------------------------------------------------------
  // The glossary: a first-write-wins dictionary
  // ---------------------------------------------------------------------

  type Glossary = map<string, string>

  /** `addToGlossary` on a dictionary value: only a term not yet present is added. */
  function Insert(g: Glossary, term: string, definition: string): (r: Glossary)
    ensures r.Keys == g.Keys + {term}
    ensures forall t | t in g :: r[t] == g[t]
    ensures term !in g ==> r[term] == definition
  {
    if term in g then g else g[term := definition]
  }

  /** The glossary after `addToGlossary` has been called on each pair in turn. */
  function InsertAll(g: Glossary, pairs: seq<(string, string)>): Glossary
  {
    if pairs == [] then g
    else
      var n := |pairs| - 1;
      Insert(InsertAll(g, pairs[..n]), pairs[n].0, pairs[n].1)
  }

  lemma InsertAllStep(g: Glossary, pairs: seq<(string, string)>, term: string, definition: string)
    ensures InsertAll(g, pairs + [(term, definition)]) == Insert(InsertAll(g, pairs), term, definition)
  {
    assert (pairs + [(term, definition)])[..|pairs|] == pairs;
  }

  function Terms(pairs: seq<(string, string)>): set<string> {
    set k | 0 <= k < |pairs| :: pairs[k].0
  }

  /**
   * The key set only grows, by exactly the inserted terms, and no existing
   * definition is ever overwritten.
   */
  lemma {:induction false} InsertAllKeeps(g: Glossary, pairs: seq<(string, string)>)
    ensures InsertAll(g, pairs).Keys == g.Keys + Terms(pairs)
    ensures forall t | t in g :: InsertAll(g, pairs)[t] == g[t]
  {
    if pairs != [] {
      var n := |pairs| - 1;
      InsertAllKeeps(g, pairs[..n]);
      assert Terms(pairs) == Terms(pairs[..n]) + {pairs[n].0} by {
        forall t | t in Terms(pairs) ensures t in Terms(pairs[..n]) + {pairs[n].0} {
          var k :| 0 <= k < |pairs| && pairs[k].0 == t;
          if k < n {
            assert pairs[..n][k] == pairs[k];
          }
        }
        forall t | t in Terms(pairs[..n]) ensures t in Terms(pairs) {
          var k :| 0 <= k < n && pairs[..n][k].0 == t;
          assert pairs[k].0 == t;
        }
      }
    }
  }

  /** For a term that was not present, the definition stored is that of its earliest pair. */
  lemma {:induction false} InsertAllFirstWins(g: Glossary, pairs: seq<(string, string)>, k: nat)
    requires k < |pairs| && pairs[k].0 !in g
    requires forall j | 0 <= j < k :: pairs[j].0 != pairs[k].0
    ensures pairs[k].0 in InsertAll(g, pairs)
    ensures InsertAll(g, pairs)[pairs[k].0] == pairs[k].1
  {
    var n := |pairs| - 1;
    if k == n {
      InsertAllKeeps(g, pairs[..n]);
      assert pairs[k].0 !in Terms(pairs[..n]);
    } else {
      assert pairs[..n][k] == pairs[k];
      InsertAllFirstWins(g, pairs[..n], k);
    }
  }

  /**
   * `readArticle` on a term not yet in the glossary stores the definition
   * of the earliest qualifying row whose stripped term it is.
   */
  lemma ReadArticleFirstRowWins(g: Glossary, rows: seq<Row>, i: nat)
    requires Qualifies(rows, i) && Strip(rows[i][0]) !in g
    requires forall j | 0 <= j < i && Qualifies(rows, j) :: Strip(rows[j][0]) != Strip(rows[i][0])
    ensures Strip(rows[i][0]) in InsertAll(g, Selected(rows))
    ensures InsertAll(g, Selected(rows))[Strip(rows[i][0])] == Strip(rows[i][1])
  {
    SelectedByIndex(rows);
    var q := QualifyingIndices(rows);
    var sel := Selected(rows);
    var k :| 0 <= k < |q| && q[k] == i;
    forall j | 0 <= j < k ensures sel[j].0 != sel[k].0 {
      assert q[j] < i;
    }
    InsertAllFirstWins(g, sel, k);
  }

  /** Terms and definitions taken from rows carry no surrounding whitespace. */
  lemma ReadArticleStoresStripped(g: Glossary, rows: seq<Row>)
    requires forall t | t in g :: Stripped(t) && Stripped(g[t])
    ensures forall t | t in InsertAll(g, Selected(rows)) ::
              Stripped(t) && Stripped(InsertAll(g, Selected(rows))[t])
  {
    SelectedStripped(rows);
    StoresStripped(g, Selected(rows));
  }

  lemma {:induction false} StoresStripped(g: Glossary, pairs: seq<(string, string)>)
    requires forall t | t in g :: Stripped(t) && Stripped(g[t])
    requires forall k | 0 <= k < |pairs| :: Stripped(pairs[k].0) && Stripped(pairs[k].1)
    ensures forall t | t in InsertAll(g, pairs) :: Stripped(t) && Stripped(InsertAll(g, pairs)[t])
  {
    if pairs != [] {
      var n := |pairs| - 1;
      StoresStripped(g, pairs[..n]);
    }
  }

  /** A term that no qualifying row names, and that was not present, stays absent. */
  lemma ReadArticleNeverAddsUnnamed(g: Glossary, rows: seq<Row>, term: string)
    requires term !in g
    requires forall i | 0 <= i < |rows| && Qualifies(rows, i) :: Strip(rows[i][0]) != term
    ensures term !in InsertAll(g, Selected(rows))
  {
    SelectedByIndex(rows);
    InsertAllKeeps(g, Selected(rows));
    var sel, q := Selected(rows), QualifyingIndices(rows);
    forall k | 0 <= k < |sel| ensures sel[k].0 != term {
      assert Qualifies(rows, q[k]);
    }
  }

  /** The module-level dictionary `glossary` and the functions that use it. */
  class GlossaryTable {
    var entries: Glossary

    constructor ()
      ensures entries == map[]
    {
      entries := map[];
    }

    /** `addToGlossary(term, definition)`: first write wins. */
    method AddToGlossary(term: string, definition: string)
      modifies this
      ensures term in old(entries) ==> entries == old(entries)
      ensures term !in old(entries) ==> entries == old(entries)[term := definition]
      ensures GetGlossaryValue(term) ==
                if term in old(entries) then Some(old(entries)[term]) else Some(definition)
      ensures forall t | t != term :: GetGlossaryValue(t) == old(GetGlossaryValue(t))
    {
      if term !in entries {
        entries := entries[term := definition];
      }
    }

    /** `getGlossaryValue(term)`: `glossary.get(term)`, None for an absent term. */
    function GetGlossaryValue(term: string): (r: Option<string>)
      reads this
      ensures r.None? <==> term !in entries
      ensures r.Some? ==> r.value == entries[term]
    {
      if term in entries then Some(entries[term]) else None
    }

    /** The row loop of `readArticle`, over the rows its CSV reader yields. */
    method ReadArticle(rows: seq<Row>)
      modifies this
      ensures entries == InsertAll(old(entries), Selected(rows))
    {
      for i := 0 to |rows|
        invariant entries == InsertAll(old(entries), Selected(rows[..i]))
      {
        SelectedStep(rows, i);
        var row := rows[i];
        if i > 1 && |row| >= 2 {
          var term := Strip(row[0]);
          var definition := Strip(row[1]);
          assert StripPair(row) == (term, definition);
          InsertAllStep(old(entries), Selected(rows[..i]), term, definition);
          AddToGlossary(term, definition);
          assert Selected(rows[..i + 1]) == Selected(rows[..i]) + [(term, definition)];
        } else {
          assert Selected(rows[..i + 1]) == Selected(rows[..i]);
        }
      }
      assert rows[..|rows|] == rows;
    }
  }

  /** The row loop of `findArticles`, over the rows its CSV reader yields. */
  method FindArticles(rows: seq<Row>) returns (articles: seq<(string, string)>)
    ensures articles == Selected(rows)
  {
    articles := [];
    for i := 0 to |rows|
      invariant articles == Selected(rows[..i])
    {
      SelectedStep(rows, i);
      var row := rows[i];
      if i > 1 && |row| >= 2 {
        var websiteName := Strip(row[0]);
        var url := Strip(row[1]);
        articles := articles + [(websiteName, url)];
      }
    }
    assert rows[..|rows|] == rows;
  }
}
