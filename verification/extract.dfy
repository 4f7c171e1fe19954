/**
 * `extract_data_from_asvs_csv`: one pass over the CSV rows that builds the
 * chapters, sections and requirements lists.
 *
 * `Assemble` states, as a function over the rows, what the loop computes:
 * a `State` holds the loop's variables between two rows, with each Section
 * and Requirement object replaced by its field values and each
 * requirement's section by an index into the sections list. The lemmas
 * below say what those lists are in terms of the rows alone, and
 * `ExtractDataFromAsvsCsv` is the loop itself, proved to build objects
 * that mirror `Assemble(rows)`.
 */
module Extract {
  import opened Results
  import opened Text
  import opened Asvs

  /** A Requirement object as a value: parsed fields, index of its section, cached uid. */
  datatype RequirementValue = RequirementValue(fields: RequirementFields, section: nat, uid: string)

  /**
   * The loop's variables: `covered.chapters`, `covered.sections`, the three
   * output lists, and `row_section` (`None` while it is unbound).
   */
  datatype State = State(
    coveredChapters: seq<string>,
    coveredSections: seq<string>,
    chapters: seq<Chapter>,
    sections: seq<SectionValue>,
    requirements: seq<RequirementValue>,
    rowSection: Option<nat>)

  const Start: State := State([], [], [], [], [], None)

  /** What holds between two rows: each covered token has its entity, and `row_section` is the newest section. */
  predicate Wf(st: State) {
    && |st.coveredChapters| == |st.chapters|
    && |st.coveredSections| == |st.sections|
    && st.rowSection == (if |st.sections| == 0 then None else Some(|st.sections| - 1))
  }

  /** Lines 157-161: a chapter is built and recorded only for an unseen `chapter_id`. */
  function AddChapter(st: State, row: Row): (r: Result<State, Error>)
    requires Wf(st)
    ensures r.Ok? ==> Wf(r.value) && row.chapterId in r.value.coveredChapters
  {
    if row.chapterId in st.coveredChapters then Ok(st)
    else
      var c :- ChapterFromCsvRow(row);
      Ok(st.(coveredChapters := st.coveredChapters + [row.chapterId], chapters := st.chapters + [c]))
  }

  /** Lines 163-166: a section is built, recorded and made `row_section` only for an unseen `section_id`. */
  function AddSection(st: State, row: Row): (r: Result<State, Error>)
    requires Wf(st)
    ensures r.Ok? ==> Wf(r.value) && row.sectionId in r.value.coveredSections
  {
    if row.sectionId in st.coveredSections then Ok(st)
    else
      var v :- SectionFromCsvRow(row);
      Ok(st.(coveredSections := st.coveredSections + [row.sectionId], sections := st.sections + [v],
             rowSection := Some(|st.sections|)))
  }

  /** Lines 168-171: every row gives a requirement, attached to `row_section`. */
  function AddRequirement(st: State, row: Row): (r: Result<State, Error>)
    requires Wf(st)
    ensures r.Ok? ==> Wf(r.value)
  {
    var f :- RequirementFromCsvRow(row);
    match st.rowSection
    case None => Err(UnboundRowSection)
    case Some(s) =>
      var uid := UidOrPlaceholder(st.sections[s].uidCache) + "." + NatToString(f.id);
      Ok(st.(requirements := st.requirements + [RequirementValue(f, s, uid)]))
  }

  /** One iteration of the loop. */
  function Step(st: State, row: Row): (r: Result<State, Error>)
    requires Wf(st)
    ensures r.Ok? ==> Wf(r.value)
  {
    var a :- AddChapter(st, row);
    var b :- AddSection(a, row);
    AddRequirement(b, row)
  }

  /** The loop over `rows`; the first exception raised ends it. */
  function Assemble(rows: seq<Row>): (r: Result<State, Error>)
    ensures r.Ok? ==> Wf(r.value)
    decreases |rows|
  {
    if rows == [] then Ok(Start)
    else
      var st :- Assemble(rows[..|rows| - 1]);
      Step(st, rows[|rows| - 1])
  }

  // ---------------------------------------------------------------------
  // What the lists are, in terms of the rows
  // ---------------------------------------------------------------------

  function ChapterIds(rows: seq<Row>): seq<string> {
    seq(|rows|, t requires 0 <= t < |rows| => rows[t].chapterId)
  }

  function SectionIds(rows: seq<Row>): seq<string> {
    seq(|rows|, t requires 0 <= t < |rows| => rows[t].sectionId)
  }

  /** `d` lists the distinct elements of `xs` once each, in the order they first appear in `xs`. */
  predicate FirstAppearanceOrder(d: seq<string>, xs: seq<string>) {
    && (forall a, b :: 0 <= a < b < |d| ==> d[a] != d[b])
    && (forall x :: x in d ==> x in xs)
    && (forall x :: x in xs ==> x in d)
    && (forall a, b :: 0 <= a < b < |d| ==> IndexOf(xs, d[a]) < IndexOf(xs, d[b]))
  }

  /** Section `s` is the newest one at row `t`: first seen at or before `t`, and every later one after `t`. */
  predicate LatestSection(ids: seq<string>, covered: seq<string>, s: nat, t: nat) {
    && s < |covered|
    && IndexOf(ids, covered[s]) <= t
    && (forall s' :: s < s' < |covered| ==> IndexOf(ids, covered[s']) > t)
  }

  /** The chapters list holds, for each distinct `chapter_id` in first-appearance order, the chapter its first row gives. */
  predicate ChaptersReflect(rows: seq<Row>, covered: seq<string>, chapters: seq<Chapter>) {
    && FirstAppearanceOrder(covered, ChapterIds(rows))
    && |chapters| == |covered|
    && (forall a :: 0 <= a < |chapters| ==>
          && IndexOf(ChapterIds(rows), covered[a]) < |rows|
          && ChapterFromCsvRow(rows[IndexOf(ChapterIds(rows), covered[a])]) == Ok(chapters[a]))
  }

  /** The sections list holds, for each distinct `section_id` in first-appearance order, the section its first row gives. */
  predicate SectionsReflect(rows: seq<Row>, covered: seq<string>, sections: seq<SectionValue>) {
    && FirstAppearanceOrder(covered, SectionIds(rows))
    && |sections| == |covered|
    && (forall a :: 0 <= a < |sections| ==>
          && IndexOf(SectionIds(rows), covered[a]) < |rows|
          && SectionFromCsvRow(rows[IndexOf(SectionIds(rows), covered[a])]) == Ok(sections[a]))
  }

  /**
   * The requirements list holds one requirement per row, parsed from that
   * row, with the placeholder uid, attached to the newest section at that row.
   */
  predicate RequirementsReflect(rows: seq<Row>, covered: seq<string>, reqs: seq<RequirementValue>) {
    && |reqs| == |rows|
    && (forall t :: 0 <= t < |rows| ==>
          && RequirementFromCsvRow(rows[t]) == Ok(reqs[t].fields)
          && reqs[t].uid == Placeholder + "." + NatToString(reqs[t].fields.id)
          && LatestSection(SectionIds(rows), covered, reqs[t].section, t))
  }

  /** All three lists of `st` are what `rows` determine. */
  predicate Reflects(rows: seq<Row>, st: State) {
    && ChaptersReflect(rows, st.coveredChapters, st.chapters)
    && SectionsReflect(rows, st.coveredSections, st.sections)
    && RequirementsReflect(rows, st.coveredSections, st.requirements)
  }

  lemma IndexOfAppend(xs: seq<string>, y: string, x: string)
    ensures x in xs ==> IndexOf(xs + [y], x) == IndexOf(xs, x)
    ensures x !in xs && x == y ==> IndexOf(xs + [y], x) == |xs|
  {
    var i, i' := IndexOf(xs, x), IndexOf(xs + [y], x);
    if x in xs {
      assert (xs + [y])[i] == x;
      assert i' < |xs| ==> xs[i'] == x;
    } else if x == y {
      assert (xs + [y])[|xs|] == x;
    }
  }

  lemma IndexOfAppendAll(xs: seq<string>, y: string)
    ensures forall x :: x in xs ==> IndexOf(xs + [y], x) == IndexOf(xs, x)
    ensures y !in xs ==> IndexOf(xs + [y], y) == |xs|
  {
    forall x | x in xs
      ensures IndexOf(xs + [y], x) == IndexOf(xs, x)
    {
      IndexOfAppend(xs, y, x);
    }
    IndexOfAppend(xs, y, y);
  }

  lemma ExtendSeen(d: seq<string>, xs: seq<string>, y: string)
    requires FirstAppearanceOrder(d, xs) && y in d
    ensures FirstAppearanceOrder(d, xs + [y])
  {
    IndexOfAppendAll(xs, y);
    forall a, b | 0 <= a < b < |d|
      ensures IndexOf(xs + [y], d[a]) < IndexOf(xs + [y], d[b])
    {
      assert d[a] in xs && d[b] in xs;
    }
  }

  lemma ExtendNew(d: seq<string>, xs: seq<string>, y: string)
    requires FirstAppearanceOrder(d, xs) && y !in d
    ensures FirstAppearanceOrder(d + [y], xs + [y])
  {
    var xs', d' := xs + [y], d + [y];
    IndexOfAppendAll(xs, y);
    forall a, b | 0 <= a < b < |d'|
      ensures d'[a] != d'[b] && IndexOf(xs', d'[a]) < IndexOf(xs', d'[b])
    {
      assert d'[a] == d[a] && d[a] in xs;
      if b < |d| {
        assert d'[b] == d[b] && d[b] in xs;
      } else {
        assert d'[b] == y;
      }
    }
    assert forall x :: x in d' ==> x in xs';
    assert forall x :: x in xs' ==> x in d';
  }

  /** Appending an element to `xs` appends it to the first-appearance list when it is new there. */
  lemma ExtendFirstAppearance(d: seq<string>, xs: seq<string>, y: string)
    requires FirstAppearanceOrder(d, xs)
    ensures FirstAppearanceOrder(if y in d then d else d + [y], xs + [y])
    ensures forall x :: x in xs ==> IndexOf(xs + [y], x) == IndexOf(xs, x)
    ensures y !in d ==> IndexOf(xs + [y], y) == |xs|
  {
    IndexOfAppendAll(xs, y);
    if y in d {
      ExtendSeen(d, xs, y);
    } else {
      ExtendNew(d, xs, y);
    }
  }

  /** A row's chapter is appended when its `chapter_id` is new, and the lists keep reflecting the rows. */
  /**
   * The common step of the chapter and section blocks, for any parser: a
   * key seen before changes nothing, a new key appends what its row parses
   * to, and each value stays the one parsed from its key's first row.
   */
  lemma FirstRowsAppend<V>(rows: seq<Row>, ids: seq<string>, cs: seq<string>, vs: seq<V>, row: Row, y: string,
                           cs': seq<string>, vs': seq<V>, parse: Row -> Result<V, Error>)
    requires |ids| == |rows| && FirstAppearanceOrder(cs, ids) && |vs| == |cs|
    requires forall a :: 0 <= a < |vs| ==> IndexOf(ids, cs[a]) < |rows| && parse(rows[IndexOf(ids, cs[a])]) == Ok(vs[a])
    requires y in cs ==> cs' == cs && vs' == vs
    requires y !in cs ==> parse(row).Ok? && cs' == cs + [y] && vs' == vs + [parse(row).value]
    ensures FirstAppearanceOrder(cs', ids + [y]) && |vs'| == |cs'|
    ensures forall a :: 0 <= a < |vs'| ==>
      IndexOf(ids + [y], cs'[a]) < |rows + [row]| && parse((rows + [row])[IndexOf(ids + [y], cs'[a])]) == Ok(vs'[a])
  {
    ExtendFirstAppearance(cs, ids, y);
    forall a | 0 <= a < |cs|
      ensures IndexOf(ids + [y], cs[a]) == IndexOf(ids, cs[a])
    {
      assert cs[a] in ids;
    }
    FirstRowsValues(rows, ids, cs, vs, row, y, cs', vs', parse);
  }

  /** The values half of `FirstRowsAppend`, from how appending `y` moves the first indices. */
  lemma FirstRowsValues<V>(rows: seq<Row>, ids: seq<string>, cs: seq<string>, vs: seq<V>, row: Row, y: string,
                           cs': seq<string>, vs': seq<V>, parse: Row -> Result<V, Error>)
    requires |ids| == |rows| && |vs| == |cs|
    requires forall a :: 0 <= a < |cs| ==> IndexOf(ids + [y], cs[a]) == IndexOf(ids, cs[a])
    requires y !in cs ==> IndexOf(ids + [y], y) == |ids|
    requires forall a :: 0 <= a < |vs| ==> IndexOf(ids, cs[a]) < |rows| && parse(rows[IndexOf(ids, cs[a])]) == Ok(vs[a])
    requires y in cs ==> cs' == cs && vs' == vs
    requires y !in cs ==> parse(row).Ok? && cs' == cs + [y] && vs' == vs + [parse(row).value]
    ensures forall a :: 0 <= a < |vs'| ==>
      IndexOf(ids + [y], cs'[a]) < |rows + [row]| && parse((rows + [row])[IndexOf(ids + [y], cs'[a])]) == Ok(vs'[a])
  {
    forall k | 0 <= k < |vs'|
      ensures IndexOf(ids + [y], cs'[k]) < |rows + [row]|
      ensures parse((rows + [row])[IndexOf(ids + [y], cs'[k])]) == Ok(vs'[k])
    {
      if k < |vs| {
        assert cs'[k] == cs[k] && vs'[k] == vs[k];
        assert (rows + [row])[IndexOf(ids, cs[k])] == rows[IndexOf(ids, cs[k])];
      } else {
        assert (rows + [row])[|rows|] == row;
      }
    }
  }

  lemma ChaptersStep(rows: seq<Row>, cc: seq<string>, chs: seq<Chapter>, row: Row, cc': seq<string>, chs': seq<Chapter>)
    requires ChaptersReflect(rows, cc, chs)
    requires row.chapterId in cc ==> cc' == cc && chs' == chs
    requires row.chapterId !in cc ==>
      ChapterFromCsvRow(row).Ok? && cc' == cc + [row.chapterId] && chs' == chs + [ChapterFromCsvRow(row).value]
    ensures ChaptersReflect(rows + [row], cc', chs')
  {
    assert ChapterIds(rows + [row]) == ChapterIds(rows) + [row.chapterId];
    FirstRowsAppend(rows, ChapterIds(rows), cc, chs, row, row.chapterId, cc', chs', ChapterFromCsvRow);
  }

  /** A row's section is appended when its `section_id` is new, and the lists keep reflecting the rows. */
  lemma SectionsStep(rows: seq<Row>, cs: seq<string>, ss: seq<SectionValue>, row: Row, cs': seq<string>, ss': seq<SectionValue>)
    requires SectionsReflect(rows, cs, ss)
    requires row.sectionId in cs ==> cs' == cs && ss' == ss
    requires row.sectionId !in cs ==>
      SectionFromCsvRow(row).Ok? && cs' == cs + [row.sectionId] && ss' == ss + [SectionFromCsvRow(row).value]
    ensures SectionsReflect(rows + [row], cs', ss')
  {
    assert SectionIds(rows + [row]) == SectionIds(rows) + [row.sectionId];
    FirstRowsAppend(rows, SectionIds(rows), cs, ss, row, row.sectionId, cs', ss', SectionFromCsvRow);
  }

  /** A section that was the newest at row `t` stays so when a later row is appended. */
  lemma LatestSectionKept(ids: seq<string>, cs: seq<string>, y: string, s: nat, t: nat)
    requires FirstAppearanceOrder(cs, ids) && LatestSection(ids, cs, s, t) && t < |ids|
    ensures LatestSection(ids + [y], if y in cs then cs else cs + [y], s, t)
  {
    IndexOfAppendAll(ids, y);
    assert cs[s] in ids;
    if y !in cs {
      var cs' := cs + [y];
      forall s' | s < s' < |cs'|
        ensures IndexOf(ids + [y], cs'[s']) > t
      {
        if s' < |cs| {
          assert cs'[s'] == cs[s'] && cs[s'] in ids;
        }
      }
    }
  }

  /** The newest section at the appended row is the last one of the list. */
  lemma LatestSectionLast(ids: seq<string>, cs: seq<string>)
    requires FirstAppearanceOrder(cs, ids) && |cs| > 0 && |ids| > 0
    ensures LatestSection(ids, cs, |cs| - 1, |ids| - 1)
  {
    assert cs[|cs| - 1] in ids;
  }

  /** A requirement's section stays the newest at its row when a row is appended. */
  lemma OldRequirementKept(rows: seq<Row>, cs: seq<string>, row: Row, cs': seq<string>, s: nat, t: nat)
    requires t < |rows| && FirstAppearanceOrder(cs, SectionIds(rows))
    requires LatestSection(SectionIds(rows), cs, s, t)
    requires cs' == if row.sectionId in cs then cs else cs + [row.sectionId]
    ensures LatestSection(SectionIds(rows + [row]), cs', s, t)
  {
    assert SectionIds(rows + [row]) == SectionIds(rows) + [row.sectionId];
    LatestSectionKept(SectionIds(rows), cs, row.sectionId, s, t);
  }

  lemma RequirementsStep(rows: seq<Row>, cs: seq<string>, reqs: seq<RequirementValue>, row: Row,
                         cs': seq<string>, v: RequirementValue, reqs': seq<RequirementValue>)
    requires FirstAppearanceOrder(cs, SectionIds(rows)) && RequirementsReflect(rows, cs, reqs)
    requires cs' == if row.sectionId in cs then cs else cs + [row.sectionId]
    requires FirstAppearanceOrder(cs', SectionIds(rows + [row]))
    requires RequirementFromCsvRow(row) == Ok(v.fields) && v.section == |cs'| - 1
    requires v.uid == Placeholder + "." + NatToString(v.fields.id)
    requires reqs' == reqs + [v]
    ensures RequirementsReflect(rows + [row], cs', reqs')
  {
    var n := |rows|;
    forall t | 0 <= t < n + 1
      ensures RequirementFromCsvRow((rows + [row])[t]) == Ok(reqs'[t].fields)
      ensures reqs'[t].uid == Placeholder + "." + NatToString(reqs'[t].fields.id)
      ensures LatestSection(SectionIds(rows + [row]), cs', reqs'[t].section, t)
    {
      if t < n {
        assert reqs'[t] == reqs[t] && (rows + [row])[t] == rows[t];
        OldRequirementKept(rows, cs, row, cs', reqs[t].section, t);
      } else {
        assert (rows + [row])[t] == row;
        LatestSectionLast(SectionIds(rows + [row]), cs');
      }
    }
  }

  /**
   * What one loop iteration does to the lists, written out: a chapter and a
   * section are appended only for new ids, and the requirement joins the
   * newest section.
   */
  ghost predicate Follows(st0: State, row: Row, st: State) {
    && (row.chapterId in st0.coveredChapters ==>
          st.coveredChapters == st0.coveredChapters && st.chapters == st0.chapters)
    && (row.chapterId !in st0.coveredChapters ==>
          && ChapterFromCsvRow(row).Ok?
          && st.coveredChapters == st0.coveredChapters + [row.chapterId]
          && st.chapters == st0.chapters + [ChapterFromCsvRow(row).value])
    && (row.sectionId in st0.coveredSections ==>
          st.coveredSections == st0.coveredSections && st.sections == st0.sections)
    && (row.sectionId !in st0.coveredSections ==>
          && SectionFromCsvRow(row).Ok?
          && st.coveredSections == st0.coveredSections + [row.sectionId]
          && st.sections == st0.sections + [SectionFromCsvRow(row).value])
    && RequirementFromCsvRow(row).Ok? && |st.sections| > 0
    && st.requirements == st0.requirements +
         [RequirementValue(RequirementFromCsvRow(row).value, |st.sections| - 1,
                           UidOrPlaceholder(st.sections[|st.sections| - 1].uidCache) + "." + NatToString(RequirementFromCsvRow(row).value.id))]
  }

  lemma AddChapterFollows(st0: State, row: Row, a: State)
    requires Wf(st0) && AddChapter(st0, row) == Ok(a)
    ensures row.chapterId in st0.coveredChapters ==> a == st0
    ensures row.chapterId !in st0.coveredChapters ==>
      && ChapterFromCsvRow(row).Ok?
      && a == st0.(coveredChapters := st0.coveredChapters + [row.chapterId], chapters := st0.chapters + [ChapterFromCsvRow(row).value])
  {
  }

  lemma AddSectionFollows(a: State, row: Row, b: State)
    requires Wf(a) && AddSection(a, row) == Ok(b)
    ensures row.sectionId in a.coveredSections ==> b == a
    ensures row.sectionId !in a.coveredSections ==>
      && SectionFromCsvRow(row).Ok?
      && b == a.(coveredSections := a.coveredSections + [row.sectionId], sections := a.sections + [SectionFromCsvRow(row).value],
                 rowSection := Some(|a.sections|))
  {
  }

  /** `AddRequirement` raises what the row's requirement raises. */
  lemma AddRequirementRaises(b: State, row: Row)
    requires Wf(b) && RequirementFromCsvRow(row).Err?
    ensures AddRequirement(b, row) == Err(RequirementFromCsvRow(row).error)
  {
  }

  /** With no section yet, `AddRequirement` raises `UnboundLocalError`. */
  lemma AddRequirementUnbound(b: State, row: Row)
    requires Wf(b) && RequirementFromCsvRow(row).Ok? && |b.sections| == 0
    ensures AddRequirement(b, row) == Err(UnboundRowSection)
  {
  }

  /** Otherwise the requirement joins the newest section, with that section's uid (the placeholder when unset). */
  lemma AddRequirementAppends(b: State, row: Row)
    requires Wf(b) && RequirementFromCsvRow(row).Ok? && |b.sections| > 0
    ensures AddRequirement(b, row).Ok?
    ensures var r := AddRequirement(b, row).value;
      && r.coveredChapters == b.coveredChapters && r.chapters == b.chapters
      && r.coveredSections == b.coveredSections && r.sections == b.sections
      && |r.requirements| == |b.requirements| + 1
      && (forall t :: 0 <= t < |b.requirements| ==> r.requirements[t] == b.requirements[t])
      && r.requirements[|b.requirements|] ==
           RequirementValue(RequirementFromCsvRow(row).value, |b.sections| - 1,
                            UidOrPlaceholder(b.sections[|b.sections| - 1].uidCache) + "." + NatToString(RequirementFromCsvRow(row).value.id))
  {
  }

  lemma StepFollows(st0: State, row: Row, st: State)
    requires Wf(st0) && Step(st0, row) == Ok(st)
    ensures Follows(st0, row, st)
  {
    var a := AddChapter(st0, row).value;
    var b := AddSection(a, row).value;
    AddChapterFollows(st0, row, a);
    AddSectionFollows(a, row, b);
    assert RequirementFromCsvRow(row).Ok? && |b.sections| > 0;
    AddRequirementAppends(b, row);
  }

  /** A section fresh from a row has no uid cached yet. */
  lemma NewestSectionFresh(rows: seq<Row>, cs: seq<string>, ss: seq<SectionValue>)
    requires SectionsReflect(rows, cs, ss) && |ss| > 0
    ensures ss[|ss| - 1].uidCache == None
  {
    var k := |ss| - 1;
    assert SectionFromCsvRow(rows[IndexOf(SectionIds(rows), cs[k])]) == Ok(ss[k]);
  }

  /** One loop iteration keeps the lists what the rows so far determine. */
  lemma ReflectsStep(rows: seq<Row>, st0: State, row: Row, st: State)
    requires Reflects(rows, st0) && Follows(st0, row, st)
    ensures Reflects(rows + [row], st)
  {
    ChaptersStep(rows, st0.coveredChapters, st0.chapters, row, st.coveredChapters, st.chapters);
    SectionsStep(rows, st0.coveredSections, st0.sections, row, st.coveredSections, st.sections);
    NewestSectionFresh(rows + [row], st.coveredSections, st.sections);
    var f := RequirementFromCsvRow(row).value;
    var v := RequirementValue(f, |st.sections| - 1, UidOrPlaceholder(st.sections[|st.sections| - 1].uidCache) + "." + NatToString(f.id));
    assert v.uid == Placeholder + "." + NatToString(f.id);
    RequirementsStep(rows, st0.coveredSections, st0.requirements, row, st.coveredSections, v, st.requirements);
  }

  lemma SplitLast(rows: seq<Row>)
    requires rows != []
    ensures rows == rows[..|rows| - 1] + [rows[|rows| - 1]]
  {
  }

  /** Everything the lists hold is fixed by the rows, as the three `...Reflect` predicates say. */
  lemma {:induction false} AssembleReflects(rows: seq<Row>)
    requires Assemble(rows).Ok?
    ensures Reflects(rows, Assemble(rows).value)
    decreases |rows|
  {
    if rows != [] {
      var p, row := rows[..|rows| - 1], rows[|rows| - 1];
      SplitLast(rows);
      AssembleReflects(p);
      StepFollows(Assemble(p).value, row, Assemble(rows).value);
      ReflectsStep(p, Assemble(p).value, row, Assemble(rows).value);
    }
  }

  /** Once a row raises, the whole pass raises the same exception. */
  lemma {:induction false} ErrorPersists(rows: seq<Row>, k: nat)
    requires k <= |rows| && Assemble(rows[..k]).Err?
    ensures Assemble(rows) == Assemble(rows[..k])
    decreases |rows|
  {
    if k < |rows| {
      var p := rows[..|rows| - 1];
      assert p[..k] == rows[..k];
      ErrorPersists(p, k);
    } else {
      assert rows[..k] == rows;
    }
  }

  /** One more row: the pass over `rows[..i + 1]` is one `Step` after the pass over `rows[..i]`. */
  lemma AssembleSnoc(rows: seq<Row>, i: nat, st: State)
    requires i < |rows| && Assemble(rows[..i]) == Ok(st)
    ensures Assemble(rows[..i + 1]) == Step(st, rows[i])
  {
    assert rows[..i + 1][..i] == rows[..i];
  }

  /**
   * Which exception a row raises, in the order the loop body meets them:
   * the chapter (only for a new `chapter_id`), then the section (only for a
   * new `section_id`), then the requirement. A row that raises none of them
   * completes its step as `Follows` writes out: `row_section` is bound by then.
   */
  lemma StepOutcome(st: State, row: Row)
    requires Wf(st)
    ensures row.chapterId !in st.coveredChapters && ChapterFromCsvRow(row).Err? ==>
      Step(st, row) == Err(ChapterFromCsvRow(row).error)
    ensures (row.chapterId in st.coveredChapters || ChapterFromCsvRow(row).Ok?) &&
            row.sectionId !in st.coveredSections && SectionFromCsvRow(row).Err? ==>
      Step(st, row) == Err(SectionFromCsvRow(row).error)
    ensures (row.chapterId in st.coveredChapters || ChapterFromCsvRow(row).Ok?) &&
            (row.sectionId in st.coveredSections || SectionFromCsvRow(row).Ok?) &&
            RequirementFromCsvRow(row).Err? ==>
      Step(st, row) == Err(RequirementFromCsvRow(row).error)
    ensures (row.chapterId in st.coveredChapters || ChapterFromCsvRow(row).Ok?) &&
            (row.sectionId in st.coveredSections || SectionFromCsvRow(row).Ok?) &&
            RequirementFromCsvRow(row).Ok? ==>
      Step(st, row).Ok? && Follows(st, row, Step(st, row).value)
  {
    if Step(st, row).Ok? {
      StepFollows(st, row, Step(st, row).value);
    }
  }

  // ---------------------------------------------------------------------
  // Consequences for the returned lists
  // ---------------------------------------------------------------------

  /** The three parsers raise only `ValueError`. */
  lemma ParsersRaiseValueError(row: Row)
    ensures ChapterFromCsvRow(row).Err? ==> ChapterFromCsvRow(row).error.InvalidLiteral?
    ensures SectionFromCsvRow(row).Err? ==> SectionFromCsvRow(row).error.InvalidLiteral?
    ensures RequirementFromCsvRow(row).Err? ==> RequirementFromCsvRow(row).error.InvalidLiteral?
  {
  }

  /**
   * The pass raises only `ValueError`: `row_section` is always bound by the
   * time a requirement reads it, because the first row always opens a section.
   */
  lemma {:induction false} AssembleRaisesOnlyValueError(rows: seq<Row>)
    ensures Assemble(rows).Err? ==> Assemble(rows).error.InvalidLiteral?
    decreases |rows|
  {
    if rows != [] {
      var p := rows[..|rows| - 1];
      AssembleRaisesOnlyValueError(p);
      if Assemble(p).Ok? {
        ParsersRaiseValueError(rows[|rows| - 1]);
        StepOutcome(Assemble(p).value, rows[|rows| - 1]);
      }
    }
  }

  /**
   * The pass never calls the `charapter` setter: every section it returns
   * has no chapter and no uid, and every requirement uid starts with the
   * placeholder.
   */
  lemma SectionsNeverGetChapter(rows: seq<Row>)
    requires Assemble(rows).Ok?
    ensures forall v :: v in Assemble(rows).value.sections ==> v.chapter == None && v.uidCache == None
    ensures forall q :: q in Assemble(rows).value.requirements ==> q.uid == Placeholder + "." + NatToString(q.fields.id)
  {
    var st := Assemble(rows).value;
    AssembleReflects(rows);
    forall v | v in st.sections
      ensures v.chapter == None && v.uidCache == None
    {
      var a :| 0 <= a < |st.sections| && st.sections[a] == v;
      assert SectionFromCsvRow(rows[IndexOf(SectionIds(rows), st.coveredSections[a])]) == Ok(v);
    }
  }

  /** No section id is seen for the first time after row `t`'s own id first appeared, up to row `t`. */
  predicate NoNewSectionSince(ids: seq<string>, t: nat)
    requires t < |ids|
  {
    forall j :: IndexOf(ids, ids[t]) < j <= t ==> IndexOf(ids, ids[j]) < j
  }

  /** The newest section at row `t` is row `t`'s own section exactly when no other section opened since it. */
  lemma LatestSectionIsOwn(ids: seq<string>, covered: seq<string>, s: nat, t: nat)
    requires FirstAppearanceOrder(covered, ids) && t < |ids| && LatestSection(ids, covered, s, t)
    ensures covered[s] == ids[t] <==> NoNewSectionSince(ids, t)
  {
    // The section of row `t` opened no later than the newest one.
    assert ids[t] in covered;
    var own :| 0 <= own < |covered| && covered[own] == ids[t];
    assert own <= s;
    if covered[s] == ids[t] {
      forall j | IndexOf(ids, ids[t]) < j <= t
        ensures IndexOf(ids, ids[j]) < j
      {
        assert ids[j] in covered;
        var s2 :| 0 <= s2 < |covered| && covered[s2] == ids[j];
        assert s2 <= s;
      }
    }
    // The newest section opened at row `i0`, at or after row `t`'s section.
    var i0 := IndexOf(ids, covered[s]);
    assert ids[i0] == covered[s];
  }

  /**
   * Requirement `t` is linked to the section of its own `section_id` exactly
   * when no other section opened between that id's first row and row `t`:
   * a section id that comes back after another section's rows gets its
   * requirements attached to that other section.
   */
  lemma RequirementSectionIsOwn(rows: seq<Row>, t: nat)
    requires Assemble(rows).Ok? && t < |rows|
    ensures var st := Assemble(rows).value;
      && t < |st.requirements| && st.requirements[t].section < |st.coveredSections|
      && (st.coveredSections[st.requirements[t].section] == rows[t].sectionId <==> NoNewSectionSince(SectionIds(rows), t))
  {
    var st := Assemble(rows).value;
    AssembleReflects(rows);
    LatestSectionIsOwn(SectionIds(rows), st.coveredSections, st.requirements[t].section, t);
  }

  /** The rows of each section id are contiguous. */
  predicate Grouped(ids: seq<string>) {
    forall a, b, c :: 0 <= a < b < c < |ids| && ids[a] == ids[c] ==> ids[b] == ids[a]
  }

  /** In grouped ids, every id since row `t`'s own first row is row `t`'s id, so none is new. */
  lemma GroupedNoNewSection(ids: seq<string>, t: nat)
    requires Grouped(ids) && t < |ids|
    ensures NoNewSectionSince(ids, t)
  {
    var i0 := IndexOf(ids, ids[t]);
    forall j | i0 < j <= t
      ensures IndexOf(ids, ids[j]) < j
    {
      if j < t {
        assert ids[j] == ids[i0];
      }
    }
  }

  /** When the CSV keeps each section's rows together, every requirement is linked to its own section. */
  lemma GroupedRowsLinkOwnSection(rows: seq<Row>, t: nat)
    requires Assemble(rows).Ok? && Grouped(SectionIds(rows)) && t < |rows|
    ensures var st := Assemble(rows).value;
      && t < |st.requirements| && st.requirements[t].section < |st.coveredSections|
      && st.coveredSections[st.requirements[t].section] == rows[t].sectionId
  {
    GroupedNoNewSection(SectionIds(rows), t);
    RequirementSectionIsOwn(rows, t);
  }

  // ---------------------------------------------------------------------
  // The loop, over objects
  // ---------------------------------------------------------------------

  /** The three returned lists. */
  datatype Output = Output(chapters: seq<Chapter>, sections: seq<Section>, requirements: seq<Requirement>)

  /** The loop's variables, with the objects it builds: `covered`, `output` and `row_section`. */
  datatype Loop = Loop(
    coveredChapters: seq<string>,
    coveredSections: seq<string>,
    chapters: seq<Chapter>,
    sections: seq<Section>,
    requirements: seq<Requirement>,
    rowSection: Section?)

  /** Each Section object holds the matching section value. */
  ghost predicate SectionsMirror(vs: seq<SectionValue>, sections: seq<Section>)
    reads sections
  {
    |sections| == |vs| && forall k :: 0 <= k < |sections| ==> sections[k].Holds(vs[k])
  }

  /** A Requirement object holds the value `v` describes and points at the object of `v`'s section. */
  ghost predicate RequirementMirror(v: RequirementValue, sections: seq<Section>, q: Requirement)
    reads q
  {
    && v.section < |sections|
    && q.Holds(v.fields)
    && q.section == Some(sections[v.section])
    && q.uidCache == Some(v.uid)
  }

  lemma MirrorGrows(v: RequirementValue, sections: seq<Section>, sections': seq<Section>, q: Requirement)
    requires RequirementMirror(v, sections, q)
    requires |sections| <= |sections'| && sections'[..|sections|] == sections
    ensures RequirementMirror(v, sections', q)
  {
    assert sections'[v.section] == sections[v.section];
  }

  /** A requirement set to the newest section mirrors the value `AddRequirement` appends. */
  lemma NewRequirementMirror(v: RequirementValue, f: RequirementFields, sections: seq<Section>, s: Section, q: Requirement)
    requires |sections| > 0 && sections[|sections| - 1] == s
    requires v == RequirementValue(f, |sections| - 1, UidOrPlaceholder(s.uidCache) + "." + NatToString(f.id))
    requires q.Holds(f) && q.section == Some(s) && q.uidCache == Some(s.Uid() + "." + NatToString(q.id))
    ensures RequirementMirror(v, sections, q)
  {
  }

  /** Appending the object of `st'`'s new requirement keeps the loop's variables `st'` over objects. */
  lemma AppendKeepsModels(st: State, st': State, l: Loop, q: Requirement)
    requires Models(st, l)
    requires st'.coveredChapters == st.coveredChapters && st'.chapters == st.chapters
    requires st'.coveredSections == st.coveredSections && st'.sections == st.sections
    requires |st'.requirements| == |st.requirements| + 1
    requires forall t :: 0 <= t < |st.requirements| ==> st'.requirements[t] == st.requirements[t]
    requires RequirementMirror(st'.requirements[|st.requirements|], l.sections, q)
    ensures Models(st', l.(requirements := l.requirements + [q]))
  {
    var requirements := l.requirements + [q];
    forall t | 0 <= t < |requirements|
      ensures RequirementMirror(st'.requirements[t], l.sections, requirements[t])
    {
      if t < |l.requirements| {
        assert requirements[t] == l.requirements[t];
      }
    }
  }

  /** The objects hold the values `st` describes, and each requirement points at its section's object. */
  ghost predicate Mirrors(st: State, sections: seq<Section>, requirements: seq<Requirement>)
    reads sections, requirements
  {
    && SectionsMirror(st.sections, sections)
    && |requirements| == |st.requirements|
    && (forall t :: 0 <= t < |requirements| ==> RequirementMirror(st.requirements[t], sections, requirements[t]))
  }

  /** The loop's lists of ids and chapters are those of `st`; `row_section` is the newest Section object. */
  ghost predicate Tracks(st: State, l: Loop) {
    && l.coveredChapters == st.coveredChapters && l.chapters == st.chapters
    && l.coveredSections == st.coveredSections
    && (l.rowSection == null <==> |l.sections| == 0)
    && (|l.sections| > 0 ==> l.rowSection == l.sections[|l.sections| - 1])
  }

  /** The loop's variables are `st` over objects. */
  ghost predicate Models(st: State, l: Loop)
    reads l.sections, l.requirements
  {
    Tracks(st, l) && Mirrors(st, l.sections, l.requirements)
  }

  ghost predicate Distinct<T>(xs: seq<T>) {
    forall a, b :: 0 <= a < b < |xs| ==> xs[a] != xs[b]
  }

  /** A list that keeps its prefix and gains at most one element not already in it stays duplicate-free. */
  lemma DistinctExtend<T>(xs: seq<T>, ys: seq<T>)
    requires Distinct(xs) && |xs| <= |ys| <= |xs| + 1
    requires forall k :: 0 <= k < |xs| ==> ys[k] == xs[k]
    requires |ys| > |xs| ==> ys[|xs|] !in xs
    ensures Distinct(ys)
  {
  }

  /** Lines 157-161: the chapter block of the loop body, `AddChapter` over objects. */
  method ChapterBlock(row: Row, l: Loop, ghost st: State) returns (r: Result<Loop, Error>)
    requires Wf(st) && Models(st, l)
    ensures AddChapter(st, row).Err? ==> r == Err(AddChapter(st, row).error)
    ensures AddChapter(st, row).Ok? ==>
      && r.Ok? && Models(AddChapter(st, row).value, r.value)
      && r.value.sections == l.sections && r.value.requirements == l.requirements
  {
    if row.chapterId in l.coveredChapters {
      return Ok(l);
    }
    var c := ChapterFromCsvRow(row);
    if c.Err? {
      return Err(c.error);
    }
    return Ok(l.(chapters := l.chapters + [c.value], coveredChapters := l.coveredChapters + [row.chapterId]));
  }

  /** Lines 163-166: the section block of the loop body, `AddSection` over objects. */
  method SectionBlock(row: Row, l: Loop, ghost st: State) returns (r: Result<Loop, Error>)
    requires Wf(st) && Models(st, l) && Distinct(l.sections)
    ensures AddSection(st, row).Err? ==> r == Err(AddSection(st, row).error)
    ensures AddSection(st, row).Ok? ==>
      && r.Ok? && Models(AddSection(st, row).value, r.value)
      && r.value.requirements == l.requirements && Distinct(r.value.sections)
  {
    if row.sectionId in l.coveredSections {
      return Ok(l);
    }
    var s := Section.FromCsvRow(row);
    if s.Err? {
      return Err(s.error);
    }
    var sections := l.sections + [s.value];
    ghost var b := AddSection(st, row).value;
    forall t | 0 <= t < |l.requirements|
      ensures RequirementMirror(b.requirements[t], sections, l.requirements[t])
    {
      MirrorGrows(st.requirements[t], l.sections, sections, l.requirements[t]);
    }
    DistinctExtend(l.sections, sections);
    return Ok(l.(rowSection := s.value, sections := sections, coveredSections := l.coveredSections + [row.sectionId]));
  }

  /** A fresh requirement object attached to `row_section` extends the loop's variables as `AddRequirement` extends `st`. */
  lemma RequirementAppendStep(st: State, row: Row, l: Loop, q: Requirement)
    requires Wf(st) && Models(st, l) && Distinct(l.requirements)
    requires RequirementFromCsvRow(row).Ok? && l.rowSection != null
    requires q.Holds(RequirementFromCsvRow(row).value) && q !in l.requirements
    requires q.section == Some(l.rowSection) && q.uidCache == Some(l.rowSection.Uid() + "." + NatToString(q.id))
    ensures AddRequirement(st, row).Ok?
    ensures Models(AddRequirement(st, row).value, l.(requirements := l.requirements + [q]))
    ensures Distinct(l.requirements + [q])
  {
    AddRequirementAppends(st, row);
    var st' := AddRequirement(st, row).value;
    var n := |l.sections| - 1;
    assert l.rowSection == l.sections[n] && l.rowSection.Holds(st.sections[n]);
    NewRequirementMirror(st'.requirements[|st.requirements|], RequirementFromCsvRow(row).value, l.sections, l.rowSection, q);
    AppendKeepsModels(st, st', l, q);
    DistinctExtend(l.requirements, l.requirements + [q]);
  }

  /** Lines 168-171: the requirement block, attached to `row_section` through the setter; `AddRequirement` over objects. */
  method RequirementBlock(row: Row, l: Loop, ghost st: State) returns (r: Result<Loop, Error>)
    requires Wf(st) && Models(st, l) && Distinct(l.requirements)
    ensures AddRequirement(st, row).Err? ==> r == Err(AddRequirement(st, row).error)
    ensures AddRequirement(st, row).Ok? ==>
      && r.Ok? && Models(AddRequirement(st, row).value, r.value)
      && r.value.sections == l.sections && Distinct(r.value.requirements)
  {
    var q := Requirement.FromCsvRow(row);
    if q.Err? {
      AddRequirementRaises(st, row);
      return Err(q.error);
    }
    if l.rowSection == null {
      AddRequirementUnbound(st, row);
      return Err(UnboundRowSection);
    }
    q.value.SetSection(l.rowSection);
    RequirementAppendStep(st, row, l, q.value);
    r := Ok(l.(requirements := l.requirements + [q.value]));
  }

  /**
   * The body of the loop for one row: it raises what `Step` raises, and
   * otherwise appends new objects that keep the variables `Step`'s result.
   */
  method ProcessRow(row: Row, l: Loop, ghost st: State) returns (r: Result<Loop, Error>)
    requires Wf(st) && Models(st, l) && Distinct(l.sections) && Distinct(l.requirements)
    ensures Step(st, row).Err? ==> r == Err(Step(st, row).error)
    ensures Step(st, row).Ok? ==> r.Ok? && Models(Step(st, row).value, r.value)
    ensures r.Ok? ==> Distinct(r.value.sections) && Distinct(r.value.requirements)
  {
    var a := ChapterBlock(row, l, st);
    if a.Err? {
      return a;
    }
    ghost var sa := AddChapter(st, row).value;
    var b := SectionBlock(row, a.value, sa);
    if b.Err? {
      return b;
    }
    ghost var sb := AddSection(sa, row).value;
    r := RequirementBlock(row, b.value, sb);
  }

  /**
   * The loop of `extract_data_from_asvs_csv` over rows already read from
   * the CSV file: it raises what `Assemble` raises, and otherwise returns
   * distinct objects that mirror `Assemble(rows)`.
   */
  method ExtractDataFromAsvsCsv(rows: seq<Row>) returns (r: Result<Output, Error>)
    ensures Assemble(rows).Err? ==> r == Err(Assemble(rows).error)
    ensures Assemble(rows).Ok? ==>
      && r.Ok? && r.value.chapters == Assemble(rows).value.chapters
      && Mirrors(Assemble(rows).value, r.value.sections, r.value.requirements)
    ensures r.Ok? ==>
      && Distinct(r.value.sections) && Distinct(r.value.requirements)
  {
    var l := Loop([], [], [], [], [], null);
    ghost var st := Start;
    for i := 0 to |rows|
      invariant Assemble(rows[..i]) == Ok(st)
      invariant Models(st, l)
      invariant Distinct(l.sections) && Distinct(l.requirements)
    {
      AssembleSnoc(rows, i, st);
      var next := ProcessRow(rows[i], l, st);
      if next.Err? {
        ErrorPersists(rows, i + 1);
        return Err(next.error);
      }
      l := next.value;
      st := Step(st, rows[i]).value;
    }
    assert rows[..|rows|] == rows;
    r := Ok(Output(l.chapters, l.sections, l.requirements));
  }
}
