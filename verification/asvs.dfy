/**
 * The three entities of the OWASP ASVS 4.0.3 model: Chapter, Section and
 * Requirement, built one CSV row at a time.
 *
 * A Chapter is never changed after it is built, so it is a value. Sections
 * and Requirements are objects whose `charapter` and `section` setters
 * store the parent and cache the dotted uid, so they are classes.
 */
module Asvs {
  import opened Results
  import opened Text
  import opened LinkSearch

  /** The glyph the CSV puts in a level column when the requirement belongs to that level. */
  const Check: string := "\U{2713}"

  /** What a `uid` getter returns while no uid has been cached. */
  const Placeholder: string := "Section charapter has not been set"

  /** One CSV row, keyed by the `ASVS_HEADERS` names; `cwe` and `nist` are never read. */
  datatype Row = Row(
    chapterId: string,
    chapterName: string,
    sectionId: string,
    sectionName: string,
    reqId: string,
    reqDescription: string,
    level1: string,
    level2: string,
    level3: string)

  /** The exceptions the parser can raise. */
  datatype Error =
    | InvalidLiteral(literal: string)   // ValueError from int()
    | UidNotSet                         // AttributeError: `_uid` read before `_set_section`
    | UnboundRowSection                 // UnboundLocalError: `row_section` used before assignment

  /** `int(s)`. */
  function ParseInt(s: string): Result<nat, Error>
  {
    match ParseDecimal(s)
    case Some(n) => Ok(n)
    case None => Err(InvalidLiteral(s))
  }

  /** The shared body of both `uid` getters: the cached uid when it is truthy, else the placeholder. */
  function UidOrPlaceholder(cache: Option<string>): string
  {
    if cache.Some? && cache.value != "" then cache.value else Placeholder
  }

  /** A real uid is never mistaken for the placeholder. */
  lemma UidNeverPlaceholder(parent: string, id: nat)
    ensures UidOrPlaceholder(Some(parent + "." + NatToString(id))) == parent + "." + NatToString(id)
    ensures UidOrPlaceholder(None) == Placeholder
    ensures parent + "." + NatToString(id) != Placeholder
  {
    var u := parent + "." + NatToString(id);
    var d := NatToString(id);
    assert u[|u| - 1] == d[|d| - 1];
    assert IsDigit(u[|u| - 1]);
    assert Placeholder[|Placeholder| - 1] == 't';
  }

  // ---------------------------------------------------------------------
  // Chapter
  // ---------------------------------------------------------------------

  /** A chapter; `Uid()` is the `uid` attribute, fixed by `id` at construction. */
  datatype Chapter = Chapter(id: nat, name: string) {
    function Uid(): string {
      "V" + NatToString(id)
    }
  }

  /** `Chapter.from_csv_row`: drop every "V" from the token and parse the rest. */
  function ChapterFromCsvRow(row: Row): Result<Chapter, Error>
  {
    var n :- ParseInt(RemoveAll(row.chapterId, 'V'));
    Ok(Chapter(n, row.chapterName))
  }

  /** The tokens a chapter's uid reproduces: "V" and a decimal without leading zeros. */
  predicate IsChapterToken(token: string) {
    |token| >= 1 && token[0] == 'V' && IsCanonicalDecimal(token[1..])
  }

  /** A token "V" + str(n) gives the chapter numbered `n`, named from `chapter_name`. */
  lemma ChapterFromToken(row: Row, n: nat)
    requires row.chapterId == "V" + NatToString(n)
    ensures ChapterFromCsvRow(row) == Ok(Chapter(n, row.chapterName))
    ensures ChapterFromCsvRow(row).value.Uid() == row.chapterId
  {
    var d := NatToString(n);
    assert 'V' !in d by {
      assert forall t :: 0 <= t < |d| ==> IsDigit(d[t]);
    }
    assert RemoveAll(row.chapterId, 'V') == RemoveAll(d, 'V') by {
      assert row.chapterId[1..] == d;
    }
    RemoveAllAbsent(d, 'V');
    ParseNatToString(n);
  }

  /** A chapter's uid equals the token it was parsed from exactly for tokens "V" + canonical decimal. */
  lemma ChapterUidIsToken(row: Row)
    ensures (ChapterFromCsvRow(row).Ok? && ChapterFromCsvRow(row).value.Uid() == row.chapterId)
            <==> IsChapterToken(row.chapterId)
  {
    var token := row.chapterId;
    if IsChapterToken(token) {
      NatToStringOfCanonical(token[1..]);
      assert token == "V" + NatToString(DigitsValue(token[1..]));
      ChapterFromToken(row, DigitsValue(token[1..]));
    }
    if ChapterFromCsvRow(row).Ok? && ChapterFromCsvRow(row).value.Uid() == token {
      assert token[1..] == NatToString(ChapterFromCsvRow(row).value.id);
    }
  }

  // ---------------------------------------------------------------------
  // Section
  // ---------------------------------------------------------------------

  /** The state of a Section object, as a value. */
  datatype SectionValue = SectionValue(id: nat, name: string, chapter: Option<Chapter>, uidCache: Option<string>)

  /**
   * `Section.from_csv_row`: the id is the int after the first "." of
   * `section_id`, the name comes from `chapter_name`, and neither the
   * chapter nor the uid is set.
   */
  function SectionFromCsvRow(row: Row): (r: Result<SectionValue, Error>)
    ensures r.Ok? ==> r.value.name == row.chapterName && r.value.chapter == None && r.value.uidCache == None
  {
    var n :- ParseInt(PartitionTail(row.sectionId, '.'));
    Ok(SectionValue(n, row.chapterName, None, None))
  }

  /**
   * A token `p.q`, with no "." in `p`, parses exactly when `q` is a digit
   * string, and then gives section `int(q)`: "V1." and "V1.2.3" raise
   * `ValueError`, "V1.02" gives section 2.
   */
  lemma SectionFromToken(row: Row, p: string, q: string)
    requires '.' !in p && row.sectionId == p + "." + q
    ensures SectionFromCsvRow(row).Ok? <==> IsDecimal(q)
    ensures SectionFromCsvRow(row).Err? ==> SectionFromCsvRow(row).error == InvalidLiteral(q)
    ensures IsDecimal(q) ==> SectionFromCsvRow(row) == Ok(SectionValue(DigitsValue(q), row.chapterName, None, None))
  {
    PartitionTailSplit(p, '.', q);
  }

  /** In particular the token `p.str(n)` gives section `n`. */
  lemma SectionFromCanonicalToken(row: Row, p: string, n: nat)
    requires '.' !in p && row.sectionId == p + "." + NatToString(n)
    ensures SectionFromCsvRow(row) == Ok(SectionValue(n, row.chapterName, None, None))
  {
    SectionFromToken(row, p, NatToString(n));
    ParseNatToString(n);
  }

  lemma SectionWithoutDot(row: Row)
    requires '.' !in row.sectionId
    ensures SectionFromCsvRow(row) == Err(InvalidLiteral(""))
  {
    PartitionTailAbsent(row.sectionId, '.');
  }

  /** A Section object: `chapter` is `_charapter`, `uidCache` is `_uid`. */
  class Section {
    const id: nat
    const name: string
    var chapter: Option<Chapter>
    var uidCache: Option<string>

    /** A cached uid is always the one the `charapter` setter computes. */
    ghost predicate Valid()
      reads this
    {
      uidCache.Some? ==> chapter.Some? && uidCache.value == chapter.value.Uid() + "." + NatToString(id)
    }

    predicate Holds(v: SectionValue)
      reads this
    {
      id == v.id && name == v.name && chapter == v.chapter && uidCache == v.uidCache
    }

    constructor (chapter: Option<Chapter>, id: nat, name: string)
      ensures Valid() && Holds(SectionValue(id, name, chapter, None))
    {
      this.id := id;
      this.name := name;
      this.chapter := chapter;
      this.uidCache := None;
    }

    static method FromCsvRow(row: Row) returns (r: Result<Section, Error>)
      ensures SectionFromCsvRow(row).Err? ==> r == Err(SectionFromCsvRow(row).error)
      ensures SectionFromCsvRow(row).Ok? ==>
        r.Ok? && fresh(r.value) && r.value.Valid() && r.value.Holds(SectionFromCsvRow(row).value)
    {
      var n := ParseInt(PartitionTail(row.sectionId, '.'));
      if n.Err? {
        return Err(n.error);
      }
      var s := new Section(None, n.value, row.chapterName);
      return Ok(s);
    }

    /** The `charapter` setter. */
    method SetChapter(c: Chapter)
      modifies this
      ensures Valid() && chapter == Some(c)
      ensures Uid() == c.Uid() + "." + NatToString(id)
    {
      chapter := Some(c);
      uidCache := Some(c.Uid() + "." + NatToString(id));
      UidNeverPlaceholder(c.Uid(), id);
    }

    /** The `uid` getter: the placeholder until a chapter is set through the setter. */
    function Uid(): (u: string)
      reads this
      ensures uidCache == None ==> u == Placeholder
      ensures Valid() && uidCache.Some? ==> u == chapter.value.Uid() + "." + NatToString(id)
    {
      UidNeverPlaceholder(if chapter.Some? then chapter.value.Uid() else "", id);
      UidOrPlaceholder(uidCache)
    }
  }

  // ---------------------------------------------------------------------
  // Requirement
  // ---------------------------------------------------------------------

  /** The fields `Requirement.from_csv_row` computes from a row. */
  datatype RequirementFields = RequirementFields(id: nat, description: string, link: Option<string>, level: seq<string>)

  /** `description_dirty.split(" ([")[0].strip()`. */
  function CleanDescription(raw: string): string
  {
    Strip(SplitHead(raw, LinkOpen))
  }

  /**
   * `tuple(filter(lambda x: x == "✓", markers))`: as many check marks as
   * there are markers equal to the check mark, and nothing else.
   */
  function KeepChecks(markers: seq<string>): (r: seq<string>)
    ensures forall t :: 0 <= t < |r| ==> r[t] == Check
  {
    if markers == [] then []
    else (if markers[0] == Check then [Check] else []) + KeepChecks(markers[1..])
  }

  /** The filter keeps exactly as many check marks as `markers` holds. */
  lemma {:induction false} KeepChecksCount(markers: seq<string>)
    ensures |KeepChecks(markers)| == multiset(markers)[Check]
  {
    if markers != [] {
      assert markers == [markers[0]] + markers[1..];
      KeepChecksCount(markers[1..]);
    }
  }

  /** The `level1`, `level2`, `level3` columns, in that order. */
  function LevelMarkers(row: Row): seq<string> {
    [row.level1, row.level2, row.level3]
  }

  /** `Requirement.from_csv_row`: id after the last ".", cleaned description, link and level marks. */
  function RequirementFromCsvRow(row: Row): Result<RequirementFields, Error>
  {
    var n :- ParseInt(RPartitionTail(row.reqId, '.'));
    Ok(RequirementFields(n, CleanDescription(row.reqDescription), Link(row.reqDescription), KeepChecks(LevelMarkers(row))))
  }

  /**
   * A token `p.q`, with no "." in `q`, parses exactly when `q` is a digit
   * string, whatever `p` holds, and then gives requirement `int(q)`: "1.2."
   * and "1.2.x" raise `ValueError`, "1.2.03" gives requirement 3.
   */
  lemma RequirementIdFromToken(row: Row, p: string, q: string)
    requires '.' !in q && row.reqId == p + "." + q
    ensures RequirementFromCsvRow(row).Ok? <==> IsDecimal(q)
    ensures RequirementFromCsvRow(row).Err? ==> RequirementFromCsvRow(row).error == InvalidLiteral(q)
    ensures IsDecimal(q) ==> RequirementFromCsvRow(row).value.id == DigitsValue(q)
  {
    RPartitionTailSplit(p, '.', q);
  }

  /** In particular the token `p.str(n)` gives requirement `n`. */
  lemma RequirementIdFromCanonicalToken(row: Row, p: string, n: nat)
    requires row.reqId == p + "." + NatToString(n)
    ensures RequirementFromCsvRow(row).Ok? && RequirementFromCsvRow(row).value.id == n
  {
    var d := NatToString(n);
    assert '.' !in d by {
      assert forall t :: 0 <= t < |d| ==> IsDigit(d[t]);
    }
    RequirementIdFromToken(row, p, d);
    ParseNatToString(n);
  }

  /** Without any "." the whole token is parsed as the id. */
  lemma RequirementIdWithoutDot(row: Row)
    requires '.' !in row.reqId
    ensures RequirementFromCsvRow(row).Ok? <==> IsDecimal(row.reqId)
    ensures RequirementFromCsvRow(row).Ok? ==> RequirementFromCsvRow(row).value.id == DigitsValue(row.reqId)
  {
    RPartitionTailAbsent(row.reqId, '.');
  }

  /** Without " ([" in the raw text there is no link and the description is the stripped text. */
  lemma DescriptionWithoutMarker(raw: string)
    requires forall t :: !Occurs(raw, LinkOpen, t)
    ensures Link(raw) == None
    ensures CleanDescription(raw) == Strip(raw)
  {
    assert forall i, j, k :: !IsMatch(raw, i, j, k);
  }

  /** With " ([" first found at `t`, the description is the stripped text before it. */
  lemma DescriptionBeforeMarker(raw: string, t: nat)
    requires Occurs(raw, LinkOpen, t)
    requires forall t' :: 0 <= t' < t ==> !Occurs(raw, LinkOpen, t')
    ensures CleanDescription(raw) == Strip(raw[..t])
  {
    var f := FindFrom(raw, LinkOpen, 0);
    assert f == Some(t);
  }

  /**
   * The levels hold one check mark per level column equal to the check mark:
   * between none and three, and they do not say which levels those were.
   */
  lemma LevelsCount(row: Row)
    ensures RequirementFromCsvRow(row).Ok? ==> RequirementFromCsvRow(row).value.level == KeepChecks(LevelMarkers(row))
    ensures |KeepChecks(LevelMarkers(row))|
            == (if row.level1 == Check then 1 else 0) + (if row.level2 == Check then 1 else 0) + (if row.level3 == Check then 1 else 0)
    ensures forall t :: 0 <= t < |KeepChecks(LevelMarkers(row))| ==> KeepChecks(LevelMarkers(row))[t] == Check
  {
    var m := LevelMarkers(row);
    assert m[1..] == [row.level2, row.level3];
    assert m[1..][1..] == [row.level3];
    assert m[1..][1..][1..] == [];
    assert |KeepChecks(m[1..][1..])| == (if row.level3 == Check then 1 else 0);
    assert |KeepChecks(m[1..])| == (if row.level2 == Check then 1 else 0) + |KeepChecks(m[1..][1..])|;
  }

  /** Levels 1 and 3 marked give the same levels as levels 1 and 2 marked. */
  lemma LevelsForgetTier(a: Row, b: Row)
    requires a.level1 == Check && a.level2 == "" && a.level3 == Check
    requires b.level1 == Check && b.level2 == Check && b.level3 == ""
    ensures KeepChecks(LevelMarkers(a)) == KeepChecks(LevelMarkers(b)) == [Check, Check]
  {
    LevelsCount(a);
    LevelsCount(b);
  }

  /** A Requirement object: `section` is `_section`, `uidCache` is `_uid` (`None` while it is unset). */
  class Requirement {
    const id: nat
    const description: string
    const link: Option<string>
    const level: seq<string>
    var section: Option<Section>
    var uidCache: Option<string>

    predicate Holds(f: RequirementFields) {
      id == f.id && description == f.description && link == f.link && level == f.level
    }

    /** `Requirement.__init__`; its `section` argument is ignored by the source, so it is not taken. */
    constructor (id: nat, description: string, link: Option<string>, level: seq<string>)
      ensures Holds(RequirementFields(id, description, link, level))
      ensures section == None && uidCache == None
    {
      this.id := id;
      this.description := description;
      this.link := link;
      this.level := level;
      this.section := None;
      this.uidCache := None;
    }

    static method FromCsvRow(row: Row) returns (r: Result<Requirement, Error>)
      ensures RequirementFromCsvRow(row).Err? ==> r == Err(RequirementFromCsvRow(row).error)
      ensures RequirementFromCsvRow(row).Ok? ==>
        && r.Ok? && fresh(r.value) && r.value.Holds(RequirementFromCsvRow(row).value)
        && r.value.section == None && r.value.uidCache == None
    {
      var n := ParseInt(RPartitionTail(row.reqId, '.'));
      if n.Err? {
        return Err(n.error);
      }
      var q := new Requirement(n.value, CleanDescription(row.reqDescription), Link(row.reqDescription),
                               KeepChecks(LevelMarkers(row)));
      return Ok(q);
    }

    /** `_set_section` through the `section` setter: the uid is fixed from the section's uid now. */
    method SetSection(s: Section)
      modifies this
      ensures section == Some(s) && uidCache == Some(s.Uid() + "." + NatToString(id))
      ensures Uid() == Ok(s.Uid() + "." + NatToString(id))
    {
      section := Some(s);
      uidCache := Some(s.Uid() + "." + NatToString(id));
    }

    /** The `uid` getter: `AttributeError` until the section is set. */
    function Uid(): (r: Result<string, Error>)
      reads this
      ensures r.Err? <==> uidCache == None
      ensures r.Err? ==> r.error == UidNotSet
    {
      match uidCache
      case None => Err(UidNotSet)
      case Some(_) => Ok(UidOrPlaceholder(uidCache))
    }
  }
}
