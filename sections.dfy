/** The section classifier of the EPANET exporter (`_epanet_sectionFromLine`):
    a line of an `.inp` file starts the CONTROLS section when the title the
    bracket pattern `\[(.*)\]` captures is `CONTROLS`.

    The pattern is searched with ECMAScript semantics: the match starts at
    the leftmost `[` from which a `]` can be reached without crossing a line
    terminator (`.` matches neither `\n` nor `\r`), and the greedy `.*`
    makes the match end at the last such `]`. */
module EpanetSections {
  import opened Points

  /** `_epanet_section_t`. */
  datatype Section = NoSection | Controls

  /** `_epanet_specialSections`: the titles the exporter intercepts. */
  const SpecialSections: map<string, Section> := map["CONTROLS" := Controls]

  /** The characters `.` does not match. */
  predicate IsTerminator(c: char) {
    c == '\n' || c == '\r'
  }

  /** The first index at or after `i` holding a line terminator, or `|line|`:
      how far `.*` can reach from `i`. */
  function ExtentFrom(line: string, i: nat): (e: nat)
    requires i <= |line|
    ensures i <= e <= |line|
    ensures forall k :: i <= k < e ==> !IsTerminator(line[k])
    ensures e < |line| ==> IsTerminator(line[e])
    decreases |line| - i
  {
    if i == |line| || IsTerminator(line[i]) then i else ExtentFrom(line, i + 1)
  }

  /** The last `]` in `line[lo..hi]`: where the greedy `.*\]` backs off to. */
  function LastCloseIn(line: string, lo: nat, hi: nat): (j: Option<nat>)
    requires lo <= hi <= |line|
    ensures j.Some? ==> lo <= j.value < hi && line[j.value] == ']'
    ensures j.Some? ==> forall k :: j.value < k < hi ==> line[k] != ']'
    ensures j.None? ==> forall k :: lo <= k < hi ==> line[k] != ']'
    decreases hi - lo
  {
    if lo == hi then None
    else if line[hi - 1] == ']' then Some(hi - 1)
    else LastCloseIn(line, lo, hi - 1)
  }

  /** The match of `\[(.*)\]` that starts at index `i`, as the indices of
      its `[` and `]`, if there is one. */
  function MatchAt(line: string, i: nat): (m: Option<(nat, nat)>)
    requires i < |line|
    ensures m.Some? ==> m.value.0 == i && i < m.value.1 < |line|
    ensures m.Some? ==> line[i] == '[' && line[m.value.1] == ']'
    ensures m.Some? ==> forall k :: i < k < m.value.1 ==> !IsTerminator(line[k])
  {
    if line[i] != '[' then None
    else
      match LastCloseIn(line, i + 1, ExtentFrom(line, i + 1))
      case None => None
      case Some(j) => Some((i, j))
  }

  /** `regex_search` from index `i`: the leftmost match starting at or
      after `i`. */
  function SearchFrom(line: string, i: nat): (m: Option<(nat, nat)>)
    requires i <= |line|
    ensures m.Some? ==> i <= m.value.0 < |line| && MatchAt(line, m.value.0) == m
    ensures m.Some? ==> forall k :: i <= k < m.value.0 ==> MatchAt(line, k).None?
    ensures m.None? ==> forall k :: i <= k < |line| ==> MatchAt(line, k).None?
    decreases |line| - i
  {
    if i == |line| then None
    else if MatchAt(line, i).Some? then MatchAt(line, i)
    else SearchFrom(line, i + 1)
  }

  /** `line` holds `[`, then `title`, then `]`, starting at index `i`. */
  predicate Bracketed(line: string, i: nat, title: string) {
    && i + 1 + |title| < |line|
    && line[i] == '['
    && line[i + 1..i + 1 + |title|] == title
    && line[i + 1 + |title|] == ']'
  }

  /** The captured title of the leftmost match, if the pattern matches. */
  function BracketTitle(line: string): (title: Option<string>)
    ensures title.Some? ==> exists i :: 0 <= i < |line| && Bracketed(line, i, title.value)
  {
    match SearchFrom(line, 0)
    case None => None
    case Some(m) =>
      assert Bracketed(line, m.0, line[m.0 + 1..m.1]);
      Some(line[m.0 + 1..m.1])
  }

  /** `_epanet_sectionFromLine(line)`. */
  function SectionFromLine(line: string): (s: Section)
    ensures '[' !in line ==> s == NoSection
    ensures s == Controls ==> BracketTitle(line) == Some("CONTROLS")
    ensures BracketTitle(line) == Some("CONTROLS") ==> s == Controls
  {
    if '[' !in line then NoSection
    else
      match BracketTitle(line)
      case None => NoSection
      case Some(title) => if title in SpecialSections then SpecialSections[title] else NoSection
  }

  /** A line that classifies as CONTROLS contains `[CONTROLS]`. */
  lemma ControlsLineHasHeader(line: string)
    requires SectionFromLine(line) == Controls
    ensures exists i :: 0 <= i < |line| && Bracketed(line, i, "CONTROLS")
  {
  }

  /** When no line terminator separates the first `[` from the last `]`,
      the title is everything between them, so the line is the CONTROLS
      header exactly when that span reads `CONTROLS`. */
  lemma {:induction false} TitleIsFirstOpenToLastClose(line: string, i: nat, j: nat)
    requires i < j < |line| && line[i] == '[' && line[j] == ']'
    requires forall k :: 0 <= k < i ==> line[k] != '['
    requires forall k :: j < k < |line| ==> line[k] != ']'
    requires forall k :: i < k < j ==> !IsTerminator(line[k])
    ensures BracketTitle(line) == Some(line[i + 1..j])
    ensures SectionFromLine(line) == Controls <==> line[i + 1..j] == "CONTROLS"
  {
    var e := ExtentFrom(line, i + 1);
    assert j < e;
    var close := LastCloseIn(line, i + 1, e);
    assert close == Some(j);
    assert MatchAt(line, i) == Some((i, j));
    var m := SearchFrom(line, 0);
    assert m.Some? && m.value.0 == i;
  }

  /** When no `]` follows the first `[`, the pattern does not match and
      the line is in no special section. */
  lemma {:induction false} UnclosedBracketIsNoSection(line: string, i: nat)
    requires i < |line| && line[i] == '['
    requires forall k :: 0 <= k < i ==> line[k] != '['
    requires forall k :: i < k < |line| ==> line[k] != ']'
    ensures BracketTitle(line) == None
    ensures SectionFromLine(line) == NoSection
  {
  }

  /** The exporter's own header line starts the CONTROLS section. */
  lemma ControlsHeader()
    ensures SectionFromLine("[CONTROLS]") == Controls
  {
    TitleIsFirstOpenToLastClose("[CONTROLS]", 0, 9);
  }

  /** So does the header followed by the carriage return of a Windows line
      ending, which `.` does not match. */
  lemma ControlsHeaderWithCarriageReturn()
    ensures SectionFromLine("[CONTROLS]\r") == Controls
  {
    TitleIsFirstOpenToLastClose("[CONTROLS]\r", 0, 9);
  }

  /** A line holding two bracket pairs captures from the first `[` to the
      last `]`, so it does not start the CONTROLS section. */
  lemma TwoBracketPairs()
    ensures SectionFromLine("[TAGS] [CONTROLS]") == NoSection
  {
    TitleIsFirstOpenToLastClose("[TAGS] [CONTROLS]", 0, 16);
  }
}
