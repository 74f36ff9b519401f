/**
 * The catalog record parser of script.js: `getValueFromLine` and the rules by which
 * `loadCards` turns the lines of cards.txt into cards. The loop itself, which appends
 * to the page's card list, is `Gallery.Page.LoadCards`; the functions here are its
 * specification.
 */
module CardParser {
  import opened Wrappers
  import opened JsText

  /** One catalog entry, with the five fields in the order the catalog lists them. */
  datatype Card = Card(catboxLink: string, chubLink: string, imagePath: string, name: string, description: string)

  const CatboxLabel: string := "Catbox link"
  const ChubLabel: string := "Chub link"
  const ImageLabel: string := "Path_to_image"
  const NameLabel: string := "name"
  const DescriptionLabel: string := "Description"

  /** The label expected on each line of a record, by position in the record. */
  const Labels: seq<string> := [CatboxLabel, ChubLabel, ImageLabel, NameLabel, DescriptionLabel]

  /** The number of catalog lines per record: the stride of the parsing loop. */
  const FieldsPerCard: nat := 5

  /** The field of `c` that line `j` of its record carries. */
  function Field(c: Card, j: nat): string
    requires j < FieldsPerCard
  {
    if j == 0 then c.catboxLink
    else if j == 1 then c.chubLink
    else if j == 2 then c.imagePath
    else if j == 3 then c.name
    else c.description
  }

  /** Every field is non-empty: the admission test of `loadCards`. */
  predicate Complete(c: Card) {
    forall j :: 0 <= j < FieldsPerCard ==> Field(c, j) != ""
  }

  /**
   * `getValueFromLine`: the label is what precedes the first colon and the value what
   * follows it. When the line has a colon and the trimmed label equals `key` up to case,
   * the value is the trimmed rest of the line; otherwise there is no value (`null`).
   * `GetValueFromLineSplits` shows this is the script's `split(':')` / `slice(1).join(':')`
   * formulation.
   */
  function GetValueFromLine(line: string, key: string): Option<string> {
    var k := FindFrom(line, ':', 0);
    if k < |line| && SameLower(Trim(line[..k]), key) then Some(Trim(line[k + 1..])) else None
  }

  /**
   * The script's own formulation: split the line at its colons; with two pieces or more
   * and a first piece that, trimmed and lower-cased, is the lower-cased key, the value is
   * the other pieces joined back with colons and trimmed.
   */
  lemma GetValueFromLineSplits(line: string, key: string)
    ensures GetValueFromLine(line, key) ==
      var parts := Split(line, ':');
      if |parts| >= 2 && Lower(Trim(parts[0])) == Lower(key) then Some(Trim(Join(parts[1..], ':'))) else None
  {
    var k := FindFrom(line, ':', 0);
    FindFromSpec(line, ':', 0);
    var parts := Split(line, ':');
    SplitPieces(line, ':');
    if k < |line| {
      var rest := SplitFrom(line, ':', k + 1);
      assert parts == [line[..k]] + rest;
      assert parts[1..] == rest;
      SplitFromJoinsBack(line, ':', k + 1);
      SameLowerSpec(Trim(line[..k]), key);
    }
  }

  /** A line without a colon yields no value. */
  lemma NoColonNoValue(line: string, key: string)
    requires ':' !in line
    ensures GetValueFromLine(line, key) == None
  {
    FindFromSpec(line, ':', 0);
  }

  /**
   * The value is decided by the first colon alone: the label is what precedes it, and the
   * value is everything after it, later colons included, trimmed.
   */
  lemma ValueAfterFirstColon(line: string, key: string, i: nat)
    requires i < |line| && line[i] == ':' && ':' !in line[..i]
    ensures GetValueFromLine(line, key) ==
      if Lower(Trim(line[..i])) == Lower(key) then Some(Trim(line[i + 1..])) else None
  {
    forall j | 0 <= j < i ensures line[j] != ':' {
      assert line[j] == line[..i][j];
    }
    FindFromFirst(line, ':', 0, i);
    SameLowerSpec(Trim(line[..i]), key);
  }

  /** A value is already trimmed, and holds only characters of its line. */
  lemma ValueIsTrimmedPiece(line: string, key: string)
    requires GetValueFromLine(line, key).Some?
    ensures Trim(GetValueFromLine(line, key).value) == GetValueFromLine(line, key).value
    ensures forall c :: c in GetValueFromLine(line, key).value ==> c in line
  {
    var i := FindFrom(line, ':', 0);
    FindFromSpec(line, ':', 0);
    ValueAfterFirstColon(line, key, i);
    TrimIdempotent(line[i + 1..]);
  }

  /** The label is matched up to case: keys with the same lower case read the same value. */
  lemma KeyCaseIgnored(line: string, key: string, key': string)
    requires Lower(key) == Lower(key')
    ensures GetValueFromLine(line, key) == GetValueFromLine(line, key')
  {
    var k := FindFrom(line, ':', 0);
    if k < |line| {
      SameLowerSpec(Trim(line[..k]), key);
      SameLowerSpec(Trim(line[..k]), key');
    }
  }

  /** A matching label with nothing after its colon gives the empty string, not `null`. */
  lemma EmptyValueIsNotNull()
    ensures GetValueFromLine("name:", NameLabel) == Some("")
  {
    ValueAfterFirstColon("name:", NameLabel, 4);
    assert "name:"[..4] == NameLabel;
    TrimTrimmed(NameLabel);
  }

  /** `value !== null && value !== ''`. */
  predicate Present(v: Option<string>) {
    v.Some? && v.value != ""
  }

  /** `line.trim() === ''`: the lines the filter removes. */
  predicate IsBlank(line: string) {
    Trim(line) == ""
  }

  /** `filter(line => line.trim() !== '')`: the non-blank lines, in their order. */
  function NonBlank(lines: seq<string>): (kept: seq<string>)
    ensures |kept| <= |lines|
  {
    if lines == [] then []
    else if IsBlank(lines[0]) then NonBlank(lines[1..])
    else [lines[0]] + NonBlank(lines[1..])
  }

  /** Filtering a concatenation filters each part. */
  lemma {:induction false} NonBlankAppend(a: seq<string>, b: seq<string>)
    ensures NonBlank(a + b) == NonBlank(a) + NonBlank(b)
    decreases |a|
  {
    if a == [] {
      assert a + b == b;
    } else {
      assert (a + b)[1..] == a[1..] + b;
      NonBlankAppend(a[1..], b);
    }
  }

  /** A line is kept exactly when it occurs in the input and is not blank. */
  lemma {:induction false} NonBlankMembers(lines: seq<string>, l: string)
    ensures l in NonBlank(lines) <==> l in lines && !IsBlank(l)
    decreases |lines|
  {
    if lines != [] {
      NonBlankMembers(lines[1..], l);
      assert lines == [lines[0]] + lines[1..];
    }
  }

  /** A blank line anywhere in the file is ignored: the other lines' grouping is as without it. */
  lemma BlankLineIgnored(before: seq<string>, blank: string, after: seq<string>)
    requires IsBlank(blank)
    ensures NonBlank(before + [blank] + after) == NonBlank(before + after)
  {
    assert NonBlank([blank]) == [] by {
      assert [blank][1..] == [];
    }
    NonBlankAppend(before + [blank], after);
    NonBlankAppend(before, [blank]);
    NonBlankAppend(before, after);
  }

  /** Lines that are all non-blank pass the filter unchanged. */
  lemma {:induction false} NonBlankKeepsAll(lines: seq<string>)
    requires forall l <- lines :: !IsBlank(l)
    ensures NonBlank(lines) == lines
    decreases |lines|
  {
    if lines != [] {
      NonBlankKeepsAll(lines[1..]);
    }
  }

  /** `text.split('\n').filter(line => line.trim() !== '')`. */
  function NonBlankLines(text: string): seq<string> {
    NonBlank(Split(text, '\n'))
  }

  /** `lines[i] || ''`: a position past the end reads as the empty line. */
  function LineAt(lines: seq<string>, i: nat): string {
    if i < |lines| then lines[i] else ""
  }

  /**
   * The values that `read` gives for the record starting at line `start`, from field `j`
   * on: field m is `read(lines[start + m] || '', Labels[m])`.
   */
  function RecordValues(read: (string, string) -> Option<string>, lines: seq<string>, start: nat, j: nat)
    : (values: seq<Option<string>>)
    requires j <= FieldsPerCard
    ensures |values| == FieldsPerCard - j
    decreases FieldsPerCard - j
  {
    if j == FieldsPerCard then []
    else [read(LineAt(lines, start + j), Labels[j])] + RecordValues(read, lines, start, j + 1)
  }

  /** The five values the loop body of `loadCards` extracts with `getValueFromLine`. */
  function GroupValues(lines: seq<string>, start: nat): seq<Option<string>> {
    RecordValues(GetValueFromLine, lines, start, 0)
  }

  lemma {:induction false} RecordValuesAt(read: (string, string) -> Option<string>, lines: seq<string>, start: nat, j: nat, m: nat)
    requires j <= m < FieldsPerCard
    ensures RecordValues(read, lines, start, j)[m - j] == read(LineAt(lines, start + m), Labels[m])
    decreases m - j
  {
    if j < m {
      RecordValuesAt(read, lines, start, j + 1, m);
    }
  }

  /** Value m of a record is read from line `start + m` under the m-th label. */
  lemma GroupValuesAt(lines: seq<string>, start: nat, m: nat)
    requires m < FieldsPerCard
    ensures GroupValues(lines, start)[m] == GetValueFromLine(LineAt(lines, start + m), Labels[m])
  {
    RecordValuesAt(GetValueFromLine, lines, start, 0, m);
  }

  /** `Object.values(card).every(value => value !== null && value !== '')` before `cards.push(card)`. */
  function CardFrom(values: seq<Option<string>>): (card: Option<Card>)
    requires |values| == FieldsPerCard
    ensures card.Some? ==> Complete(card.value)
  {
    if Present(values[0]) && Present(values[1]) && Present(values[2]) && Present(values[3]) && Present(values[4]) then
      Some(Card(values[0].value, values[1].value, values[2].value, values[3].value, values[4].value))
    else
      None
  }

  /** The card the record starting at line `start` makes, if it is admitted. */
  function GroupCard(lines: seq<string>, start: nat): Option<Card> {
    CardFrom(GroupValues(lines, start))
  }

  /** Group `k` is the record on lines 5k .. 5k+4. */
  function GroupAt(lines: seq<string>, k: nat): Option<Card> {
    GroupCard(lines, FieldsPerCard * k)
  }

  /**
   * All-or-nothing admission: five values make a card exactly when every one of them is
   * present and non-empty, and the card holds them in field order. So a wrong label or an
   * empty value (either makes its value absent or empty) drops the whole group.
   */
  lemma CardFromSpec(values: seq<Option<string>>)
    requires |values| == FieldsPerCard
    ensures CardFrom(values).Some? <==> forall j :: 0 <= j < FieldsPerCard ==> Present(values[j])
    ensures CardFrom(values).Some? ==>
      forall j :: 0 <= j < FieldsPerCard ==> values[j] == Some(Field(CardFrom(values).value, j))
  {
  }

  /** Five present values make the card holding them. */
  lemma CardFromFields(values: seq<Option<string>>, c: Card)
    requires |values| == FieldsPerCard
    requires Complete(c)
    requires forall j :: 0 <= j < FieldsPerCard ==> values[j] == Some(Field(c, j))
    ensures CardFrom(values) == Some(c)
  {
    assert values[0] == Some(c.catboxLink) && values[1] == Some(c.chubLink) && values[2] == Some(c.imagePath)
      && values[3] == Some(c.name) && values[4] == Some(c.description);
  }

  /**
   * The record starting at line `start` as the loop body of `loadCards` computes it: the
   * five values read from lines start .. start+4 under their labels, admitted together or
   * not at all.
   */
  lemma GroupCardUnrolled(lines: seq<string>, start: nat, catboxLink: Option<string>, chubLink: Option<string>,
                          imagePath: Option<string>, name: Option<string>, description: Option<string>)
    requires catboxLink == GetValueFromLine(LineAt(lines, start), CatboxLabel)
    requires chubLink == GetValueFromLine(LineAt(lines, start + 1), ChubLabel)
    requires imagePath == GetValueFromLine(LineAt(lines, start + 2), ImageLabel)
    requires name == GetValueFromLine(LineAt(lines, start + 3), NameLabel)
    requires description == GetValueFromLine(LineAt(lines, start + 4), DescriptionLabel)
    ensures Admit(GroupCard(lines, start)) ==
      if Present(catboxLink) && Present(chubLink) && Present(imagePath) && Present(name) && Present(description)
      then [Card(catboxLink.value, chubLink.value, imagePath.value, name.value, description.value)]
      else []
  {
    GroupValuesAt(lines, start, 0);
    GroupValuesAt(lines, start, 1);
    GroupValuesAt(lines, start, 2);
    GroupValuesAt(lines, start, 3);
    GroupValuesAt(lines, start, 4);
  }

  /** A record cut short by the end of the file is dropped: the missing line reads as `''`. */
  lemma MissingLineDropsGroup(lines: seq<string>, start: nat)
    requires start + FieldsPerCard > |lines|
    ensures GroupCard(lines, start) == None
  {
    GroupValuesAt(lines, start, FieldsPerCard - 1);
    NoColonNoValue("", DescriptionLabel);
  }

  function Admit(group: Option<Card>): seq<Card> {
    if group.Some? then [group.value] else []
  }

  /** The cards of the admitted groups, in group order. */
  function Collect(groups: seq<Option<Card>>): (cards: seq<Card>)
    ensures |cards| <= |groups|
  {
    if groups == [] then []
    else Collect(groups[..|groups| - 1]) + Admit(groups[|groups| - 1])
  }

  /** When every group made a card, the cards are those of the groups, in order. */
  lemma {:induction false} CollectAllPresent(groups: seq<Option<Card>>, cards: seq<Card>)
    requires |groups| == |cards|
    requires forall k :: 0 <= k < |groups| ==> groups[k] == Some(cards[k])
    ensures Collect(groups) == cards
    decreases |groups|
  {
    if groups != [] {
      var n := |groups| - 1;
      CollectAllPresent(groups[..n], cards[..n]);
      assert cards == cards[..n] + [cards[n]];
    }
  }

  /** The outcomes of groups 0 .. n-1. */
  function Groups(lines: seq<string>, n: nat): seq<Option<Card>> {
    seq(n, k requires 0 <= k < n => GroupAt(lines, k))
  }

  /** The cards that groups 0 .. n-1 contribute, in group order. */
  function ParseGroups(lines: seq<string>, n: nat): seq<Card> {
    Collect(Groups(lines, n))
  }

  /** One more iteration of the loop appends what the next group contributes. */
  lemma ParseGroupsStep(lines: seq<string>, n: nat)
    ensures ParseGroups(lines, n + 1) == ParseGroups(lines, n) + Admit(GroupAt(lines, n))
  {
    assert Groups(lines, n + 1)[..n] == Groups(lines, n);
  }

  /** `ParseGroupsStep` after a fixed prefix, in the shape the `LoadCards` loop invariant uses. */
  lemma ParseGroupsNext(prefix: seq<Card>, lines: seq<string>, k: nat)
    ensures prefix + ParseGroups(lines, k + 1) == prefix + ParseGroups(lines, k) + Admit(GroupAt(lines, k))
  {
    ParseGroupsStep(lines, k);
  }

  /** The number of iterations of `for (i = 0; i < count; i += 5)`: count / 5 rounded up. */
  function GroupCount(lineCount: nat): (groups: nat)
    ensures FieldsPerCard * groups >= lineCount
    ensures groups == 0 || FieldsPerCard * (groups - 1) < lineCount
  {
    (lineCount + FieldsPerCard - 1) / FieldsPerCard
  }

  /** The cards a list of (already filtered) catalog lines yields. */
  function ParseLines(lines: seq<string>): seq<Card> {
    ParseGroups(lines, GroupCount(|lines|))
  }

  /** The cards `loadCards` appends for the text of cards.txt. */
  function ParseCatalog(text: string): seq<Card> {
    ParseLines(NonBlankLines(text))
  }

  /** The positions of the groups that made a card, in increasing order. */
  function Admitted(groups: seq<Option<Card>>): seq<nat> {
    if groups == [] then []
    else Admitted(groups[..|groups| - 1]) + (if groups[|groups| - 1].Some? then [|groups| - 1] else [])
  }

  /** Admitted positions are group positions, strictly increasing. */
  lemma {:induction false} AdmittedIncreasing(groups: seq<Option<Card>>)
    ensures forall j :: 0 <= j < |Admitted(groups)| ==> Admitted(groups)[j] < |groups|
    ensures forall j, j' :: 0 <= j < j' < |Admitted(groups)| ==> Admitted(groups)[j] < Admitted(groups)[j']
    decreases |groups|
  {
    if groups != [] {
      var init := groups[..|groups| - 1];
      AdmittedIncreasing(init);
      var a := Admitted(init);
      assert Admitted(groups) == a || Admitted(groups) == a + [|init|];
    }
  }

  /** Card j is the card of the j-th admitted group. */
  lemma {:induction false} AdmittedSources(groups: seq<Option<Card>>)
    ensures |Collect(groups)| == |Admitted(groups)|
    ensures forall j :: 0 <= j < |Admitted(groups)| ==>
      Admitted(groups)[j] < |groups| && groups[Admitted(groups)[j]] == Some(Collect(groups)[j])
    decreases |groups|
  {
    if groups != [] {
      var n := |groups| - 1;
      var init := groups[..n];
      AdmittedSources(init);
      var a := Admitted(init);
      var cs := Collect(init);
      forall j | 0 <= j < |a| ensures groups[a[j]] == Some(cs[j]) {
        assert groups[a[j]] == init[a[j]];
      }
      if groups[n].Some? {
        assert Admitted(groups) == a + [n];
        assert Collect(groups) == cs + [groups[n].value];
      } else {
        assert Admitted(groups) == a;
        assert Collect(groups) == cs;
      }
    }
  }

  /** Every group that makes a card is admitted. */
  lemma {:induction false} AdmittedComplete(groups: seq<Option<Card>>)
    ensures forall k :: 0 <= k < |groups| && groups[k].Some? ==> k in Admitted(groups)
    decreases |groups|
  {
    if groups != [] {
      var n := |groups| - 1;
      var init := groups[..n];
      AdmittedComplete(init);
      forall k | 0 <= k < n && groups[k].Some? ensures k in Admitted(groups) {
        assert init[k] == groups[k];
        assert k in Admitted(init);
      }
    }
  }

  /**
   * Card j comes from the j-th admitted group; admitted positions are strictly increasing,
   * so cards keep group order and each group gives at most one; and every group that makes
   * a card is among them.
   */
  lemma CollectOrder(groups: seq<Option<Card>>)
    ensures |Collect(groups)| == |Admitted(groups)|
    ensures forall j :: 0 <= j < |Admitted(groups)| ==>
      Admitted(groups)[j] < |groups| && groups[Admitted(groups)[j]] == Some(Collect(groups)[j])
    ensures forall j, j' :: 0 <= j < j' < |Admitted(groups)| ==> Admitted(groups)[j] < Admitted(groups)[j']
    ensures forall k :: 0 <= k < |groups| && groups[k].Some? ==> k in Admitted(groups)
  {
    AdmittedSources(groups);
    AdmittedIncreasing(groups);
    AdmittedComplete(groups);
  }

  /** Every parsed card has all five fields non-empty. */
  lemma ParsedCardsComplete(lines: seq<string>, n: nat)
    ensures forall c <- ParseGroups(lines, n) :: Complete(c)
  {
    var groups := Groups(lines, n);
    CollectOrder(groups);
    forall c | c in Collect(groups) ensures Complete(c) {
      var j :| 0 <= j < |Collect(groups)| && Collect(groups)[j] == c;
      var k := Admitted(groups)[j];
      assert GroupAt(lines, k) == Some(c);
    }
  }

  /** At most ceil(n/5) cards come from n filtered lines. */
  lemma ParseLinesBound(lines: seq<string>)
    ensures |ParseLines(lines)| <= GroupCount(|lines|)
  {
  }
}
