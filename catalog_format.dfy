/**
 * The layout of cards.txt that the parser reads: each card as five `Label: value` lines
 * in field order, lines separated by '\n'. The serializer is a reference definition of
 * that layout; the lemmas show that the parser inverts it.
 */
module CatalogFormat {
  import opened Wrappers
  import opened JsText
  import opened CardParser

  /** A value that survives a line of the catalog unchanged: non-empty, trimmed, one line. */
  predicate WellFormedValue(v: string) {
    v != "" && Trim(v) == v && '\n' !in v
  }

  predicate WellFormedCard(c: Card) {
    forall j :: 0 <= j < FieldsPerCard ==> WellFormedValue(Field(c, j))
  }

  function FormatLine(key: string, value: string): string {
    key + ": " + value
  }

  /** The five lines of a card: `Catbox link: ...`, `Chub link: ...`, `Path_to_image: ...`, `name: ...`, `Description: ...`. */
  function FormatCard(c: Card): seq<string> {
    seq(FieldsPerCard, j requires 0 <= j < FieldsPerCard => FormatLine(Labels[j], Field(c, j)))
  }

  function CatalogLines(cards: seq<Card>): seq<string> {
    if cards == [] then [] else FormatCard(cards[0]) + CatalogLines(cards[1..])
  }

  /** The catalog text for `cards`. */
  function Serialize(cards: seq<Card>): string {
    Join(CatalogLines(cards), '\n')
  }

  /** A key is colon-free and has no whitespace at either end. */
  predicate CleanLabel(key: string) {
    key != "" && ':' !in key && '\n' !in key
    && !IsJsWhitespace(key[0]) && !IsJsWhitespace(key[|key| - 1])
  }

  lemma LabelsClean()
    ensures forall j :: 0 <= j < FieldsPerCard ==> CleanLabel(Labels[j])
  {
    assert CleanLabel(CatboxLabel);
    assert CleanLabel(ChubLabel);
    assert CleanLabel(ImageLabel);
    assert CleanLabel(NameLabel);
    assert CleanLabel(DescriptionLabel);
  }

  /** `getValueFromLine` reads back what one formatted line carries. */
  lemma FormatLineValue(key: string, v: string)
    requires CleanLabel(key) && Trim(v) == v
    ensures GetValueFromLine(FormatLine(key, v), key) == Some(v)
  {
    var line := FormatLine(key, v);
    var i := |key|;
    assert line[..i] == key;
    assert line[i + 1..] == [' '] + v;
    ValueAfterFirstColon(line, key, i);
    TrimTrimmed(key);
    TrimSkipsLeading(' ', v);
  }

  /** A formatted line is one non-blank line. */
  lemma FormatLineClean(key: string, v: string)
    requires CleanLabel(key) && '\n' !in v
    ensures '\n' !in FormatLine(key, v) && !IsBlank(FormatLine(key, v))
  {
    assert FormatLine(key, v)[0] == key[0];
    TrimSpec(FormatLine(key, v));
  }

  lemma {:induction false} CatalogLinesAt(cards: seq<Card>, k: nat)
    requires k < |cards|
    ensures |CatalogLines(cards)| == FieldsPerCard * |cards|
    ensures CatalogLines(cards)[FieldsPerCard * k..FieldsPerCard * k + FieldsPerCard] == FormatCard(cards[k])
    decreases |cards|
  {
    if k > 0 {
      CatalogLinesAt(cards[1..], k - 1);
      var rest := CatalogLines(cards[1..]);
      assert CatalogLines(cards)[FieldsPerCard * k..FieldsPerCard * k + FieldsPerCard]
        == rest[FieldsPerCard * (k - 1)..FieldsPerCard * (k - 1) + FieldsPerCard];
    } else if |cards| > 1 {
      CatalogLinesAt(cards[1..], 0);
    }
  }

  lemma {:induction false} CatalogLinesClean(cards: seq<Card>)
    requires forall c <- cards :: WellFormedCard(c)
    ensures forall l <- CatalogLines(cards) :: '\n' !in l && !IsBlank(l)
    decreases |cards|
  {
    if cards != [] {
      CatalogLinesClean(cards[1..]);
      var c := cards[0];
      assert c in cards;
      LabelsClean();
      forall j | 0 <= j < FieldsPerCard ensures '\n' !in FormatCard(c)[j] && !IsBlank(FormatCard(c)[j]) {
        FormatLineClean(Labels[j], Field(c, j));
      }
    }
  }

  lemma LineValue(lines: seq<string>, start: nat, j: nat, key: string, v: string)
    requires j < FieldsPerCard && start + j < |lines| && key == Labels[j]
    requires CleanLabel(key) && Trim(v) == v && lines[start + j] == FormatLine(key, v)
    ensures GroupValues(lines, start)[j] == Some(v)
  {
    FormatLineValue(key, v);
    GroupValuesAt(lines, start, j);
  }

  /** Line j of a formatted record reads back as field j. */
  lemma FormattedField(lines: seq<string>, start: nat, c: Card, j: nat)
    requires WellFormedCard(c) && j < FieldsPerCard
    requires start + FieldsPerCard <= |lines| && lines[start..start + FieldsPerCard] == FormatCard(c)
    ensures GroupValues(lines, start)[j] == Some(Field(c, j))
  {
    LabelsClean();
    assert lines[start + j] == FormatCard(c)[j];
    LineValue(lines, start, j, Labels[j], Field(c, j));
  }

  /** Five formatted lines make exactly their card. */
  lemma FormattedGroup(lines: seq<string>, start: nat, c: Card)
    requires WellFormedCard(c)
    requires start + FieldsPerCard <= |lines| && lines[start..start + FieldsPerCard] == FormatCard(c)
    ensures GroupCard(lines, start) == Some(c)
  {
    var values := GroupValues(lines, start);
    forall j | 0 <= j < FieldsPerCard ensures values[j] == Some(Field(c, j)) {
      FormattedField(lines, start, c, j);
    }
    CardFromFields(values, c);
  }

  /** Lines laid out as the records of `cards`, five lines per card, in order. */
  predicate HoldsRecords(lines: seq<string>, cards: seq<Card>) {
    |lines| == FieldsPerCard * |cards|
    && forall k :: 0 <= k < |cards| ==>
         lines[FieldsPerCard * k..FieldsPerCard * k + FieldsPerCard] == FormatCard(cards[k])
  }

  lemma CatalogHoldsRecords(cards: seq<Card>)
    ensures HoldsRecords(CatalogLines(cards), cards)
  {
    if cards == [] {
      assert CatalogLines(cards) == [];
    } else {
      CatalogLinesAt(cards, 0);
    }
    forall k | 0 <= k < |cards|
      ensures CatalogLines(cards)[FieldsPerCard * k..FieldsPerCard * k + FieldsPerCard] == FormatCard(cards[k])
    {
      CatalogLinesAt(cards, k);
    }
  }

  /** Every record of a well-formed layout is read back as its card, so all of them are read back, in order. */
  lemma ParseRecords(lines: seq<string>, cards: seq<Card>)
    requires HoldsRecords(lines, cards)
    requires forall c <- cards :: WellFormedCard(c)
    ensures ParseGroups(lines, |cards|) == cards
  {
    var groups := Groups(lines, |cards|);
    forall k | 0 <= k < |cards| ensures groups[k] == Some(cards[k]) {
      assert cards[k] in cards;
      FormattedGroup(lines, FieldsPerCard * k, cards[k]);
    }
    CollectAllPresent(groups, cards);
  }

  /** Round trip: the parser reads back exactly the cards that were written. */
  lemma RoundTrip(cards: seq<Card>)
    requires forall c <- cards :: WellFormedCard(c)
    ensures ParseCatalog(Serialize(cards)) == cards
  {
    var lines := CatalogLines(cards);
    if cards == [] {
      assert Serialize(cards) == "";
      assert Split("", '\n') == [""];
      assert IsBlank("");
      assert NonBlank([""]) == [] by {
        assert [""][1..] == [];
      }
    } else {
      CatalogHoldsRecords(cards);
      CatalogLinesClean(cards);
      SplitJoin(lines, '\n');
      NonBlankKeepsAll(lines);
      assert GroupCount(|lines|) == |cards|;
      ParseRecords(lines, cards);
    }
  }
}
