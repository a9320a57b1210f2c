/** How often each problem of `config.toml` is reported: once per bad key. */
module ConfigProblems {
  import opened ConfigModel
  import opened ConfigReader

  lemma NotNamedNever(ps: seq<Problem>, p: Problem)
    requires !Named(ps, p.key)
    ensures Times(ps, p) == 0
  {
    NamedIsTimes(ps, p.key);
  }

  ghost predicate Distinct(keys: seq<Key>) {
    forall i, j | 0 <= i < j < |keys| :: keys[i].name != keys[j].name
  }

  /** In a table's problems a key's own ones occur as often as its reader adds them. */
  lemma {:induction false} SchemaTimes(section: string, keys: seq<Key>, t: Table, j: nat, p: Problem)
    requires j < |keys| && Distinct(keys) && p.key == [section, keys[j].name]
    ensures Times(SchemaProblems(section, keys, t), p) == Times(KeyProblems(section, keys[j], t), p)
    decreases |keys|
  {
    hide Times;
    hide Named;
    hide KeyProblems;
    var n := |keys| - 1;
    var before, last := SchemaProblems(section, keys[..n], t), KeyProblems(section, keys[n], t);
    TimesAppend(before, last, p);
    if j == n {
      SchemaAccounts(section, keys[..n], t, p.key);
      NotNamedNever(before, p);
    } else {
      SchemaTimes(section, keys[..n], t, j, p);
      KeyAccounts(section, keys[n], t, p.key);
      NotNamedNever(last, p);
    }
  }

  /** Only a table's own reader reports problems of its keys. */
  lemma {:induction false} SectionsTimes(table: Table, sections: seq<Section>, s: Section, p: Problem)
    requires p.key != [] && p.key[0] == Name(s)
    requires forall i, j | 0 <= i < j < |sections| :: sections[i] != sections[j]
    ensures Times(SectionsProblems(table, sections), p) ==
            if s in sections then Times(SectionProblems(table, s), p) else 0
    decreases |sections|
  {
    hide Times;
    hide Named;
    hide SectionProblems;
    if sections == [] {
      TimesOne(p, p);
    } else {
      var n := |sections| - 1;
      SectionsTimes(table, sections[..n], s, p);
      TimesAppend(SectionsProblems(table, sections[..n]), SectionProblems(table, sections[n]), p);
      if sections[n] != s {
        NamesDiffer();
        SectionAccounts(table, sections[n], p.key);
        NotNamedNever(SectionProblems(table, sections[n]), p);
      }
    }
  }

  lemma OwnTableOnly(table: Table, s: Section, p: Problem)
    requires p.key != [] && p.key[0] == Name(s)
    ensures Times(ReadProblems(table), p) == Times(SectionProblems(table, s), p)
  {
    hide Times;
    hide Named;
    hide SectionProblems;
    hide SectionsProblems;
    hide TopProblems;
    TimesAppend(TopProblems(table), SectionsProblems(table, READ_ORDER), p);
    TopAccounts(table, p.key);
    NotNamedNever(TopProblems(table), p);
    SectionsTimes(table, READ_ORDER, s, p);
    EverySectionIsRead(s);
  }

  lemma SchemaIsDistinct(s: Section)
    ensures Distinct(Schema(s))
  {
    SchemaNamesDiffer(s);
    hide Schema;
  }

  /** A known key of a table is reported as often as its own reader does, by no other reader
      and not as unknown; but for `git.ignore` that is never for a value it may have and
      exactly once for any other. */
  lemma KnownKeyOnce(table: Table, s: Section, j: nat, p: Problem)
    requires Name(s) in table && table[Name(s)].Tab?
    requires j < |Schema(s)| && Schema(s)[j].name in table[Name(s)].t && p.key == [Name(s), Schema(s)[j].name]
    ensures Expected(table, p) == Times(KeyProblems(Name(s), Schema(s)[j], table[Name(s)].t), p)
    ensures var key := Schema(s)[j];
            var why := match key.rule
              case Boolean => NotABoolean
              case Range(_, _) => OutOfRange
              case Logins => NotLogins
              case SyncPolicy => NotASyncPolicy
              case Ascending(_, _) => NotAPair
              case IgnoreList => NotAnArray;
            var v := table[Name(s)].t[key.name];
            (key.rule.IgnoreList? && v.Array?) ||
            Expected(table, p) == if !Accepts(key.rule, v) && p.why == why then 1 else 0
  {
    hide Times;
    hide Schema;
    hide Accepts;
    hide ReadProblems;
    NamesDiffer();
    OwnTableOnly(table, s, p);
    SchemaIsDistinct(s);
    SchemaTimes(Name(s), Schema(s), table[Name(s)].t, j, p);
    assert IsKnown(s, p.key[1]);
    TimesOne(Problem(p.key, Reason(Schema(s)[j].rule)), p);
  }

  /** An unknown key of a table is reported exactly once. */
  lemma UnknownKeyOnce(table: Table, s: Section, k: string, p: Problem)
    requires Name(s) in table && table[Name(s)].Tab? && k in table[Name(s)].t && !IsKnown(s, k)
    requires p.key == [Name(s), k]
    ensures var hinted := s == DeliveryTable && (k == "mode" || k == "remote");
            Expected(table, p) == if p.why == (if hinted then SetInProfile else UnknownKey) then 1 else 0
  {
    hide Times;
    hide Named;
    hide Schema;
    hide ReadProblems;
    hide SectionProblems;
    NamesDiffer();
    OwnTableOnly(table, s, p);
    SectionAccounts(table, s, p.key);
    NotNamedNever(SectionProblems(table, s), p);
  }

  /** A table that is no table gets exactly one problem, and none for its contents. */
  lemma NotATableIsReportedOnce(table: Table, s: Section, p: Problem)
    requires Name(s) in table && !table[Name(s)].Tab? && p.key != [] && p.key[0] == Name(s)
    ensures Expected(table, p) == if p == Problem([Name(s)], NotATable) then 1 else 0
  {
    hide Times;
    hide ReadProblems;
    NamesDiffer();
    OwnTableOnly(table, s, p);
    TimesOne(Problem([Name(s)], NotATable), p);
  }

  lemma OnlyTopReader(table: Table, p: Problem)
    requires |p.key| == 1 && !IsSection(p.key[0])
    ensures Times(ReadProblems(table), p) == Times(TopProblems(table), p)
  {
    hide Times;
    hide Named;
    hide SectionsProblems;
    hide TopProblems;
    TimesAppend(TopProblems(table), SectionsProblems(table, READ_ORDER), p);
    SectionsAccount(table, READ_ORDER, p.key);
    forall j | 0 <= j < |READ_ORDER| ensures !SectionRefuses(table, READ_ORDER[j], p.key) {
      assert Name(READ_ORDER[j]) != p.key[0];
    }
    NotNamedNever(SectionsProblems(table, READ_ORDER), p);
  }

  lemma TopAreNoSections()
    ensures !IsSection("scrollback_lines") && !IsSection("sidebar_width")
  {
  }

  /** The two top-level keys read here: one out of its range is reported once, and the old
      width always, as renamed when it is valid. */
  lemma TopKeyOnce(table: Table, p: Problem)
    requires p.key == ["scrollback_lines"] || p.key == ["sidebar_width"]
    ensures var k := p.key[0];
            Expected(table, p) ==
            if k !in table then 0
            else if k == "scrollback_lines" then
              if !(table[k].Integer? && 0 <= table[k].n <= 100_000) && p.why == OutOfRange then 1 else 0
            else if p.why == (if table[k].Integer? && 24 <= table[k].n <= 60 then Renamed else OutOfRange) then 1 else 0
  {
    TopAreNoSections();
    OnlyTopReader(table, p);
    TopTimes(table, p);
    hide ReadProblems;
    hide TopProblems;
    hide Times;
    hide IsSection;
  }

  lemma TopTimes(table: Table, p: Problem)
    ensures Times(TopProblems(table), p) ==
            (if SCROLLBACK in table && !InRange(table[SCROLLBACK], 0, 100_000) && p == Problem([SCROLLBACK], OutOfRange)
             then 1 else 0) +
            (if LEGACY_WIDTH in table &&
                p == Problem([LEGACY_WIDTH], if InRange(table[LEGACY_WIDTH], 24, 60) then Renamed else OutOfRange)
             then 1 else 0)
  {
    hide Times;
    var a := if SCROLLBACK in table && !InRange(table[SCROLLBACK], 0, 100_000)
             then [Problem([SCROLLBACK], OutOfRange)] else [];
    var q := Problem([LEGACY_WIDTH], if LEGACY_WIDTH in table && InRange(table[LEGACY_WIDTH], 24, 60)
                                     then Renamed else OutOfRange);
    TimesAppend(a, if LEGACY_WIDTH in table then [q] else [], p);
    TimesOne(q, p);
    TimesOne(Problem([SCROLLBACK], OutOfRange), p);
  }

  /** Any other top-level key is reported once if nothing knows it, and never by the modelled
      readers if another part reads it. */
  lemma OtherTopKeyOnce(table: Table, k: string, p: Problem)
    requires k in table && p.key == [k]
    requires k !in {"scrollback_lines", "sidebar_width", "bell", "ui", "panes", "git", "delivery"}
    ensures var elsewhere := k in {"prefix", "accent", "default_runtime", "runtimes", "conversation", "orchestrator",
                                   "models", "testing", "theme", "target_pool", "lessons"};
            Expected(table, p) == if !elsewhere && p.why == UnknownKey then 1 else 0
  {
    NoSection(k);
    OnlyTopReader(table, p);
    TopTimes(table, p);
    UnreadTop(table, k);
    hide ReadProblems;
    hide TopProblems;
    hide Times;
    hide IsSection;
    hide Unread;
  }

  lemma UnreadTop(table: Table, k: string)
    requires k in table && !IsSection(k) && k != SCROLLBACK && k != LEGACY_WIDTH
    ensures Unread(table, [k]) <==> k !in ELSEWHERE
    ensures WhyUnread([k]) == UnknownKey
  {
    hide IsSection;
  }

  lemma NoSection(k: string)
    requires k !in {"bell", "ui", "panes", "git", "delivery"}
    ensures !IsSection(k)
  {
  }

  /** The order problems are found in: the top-level keys, then table by table. */
  lemma ProblemsInOrder(table: Table)
    ensures ReadProblems(table) ==
            TopProblems(table) + SectionProblems(table, BellTable) + SectionProblems(table, UiTable) +
            SectionProblems(table, PanesTable) + SectionProblems(table, GitTable) +
            SectionProblems(table, DeliveryTable)
  {
    hide SectionProblems;
    hide TopProblems;
    var o := READ_ORDER;
    assert o[..0] == [] && o[..1][..0] == o[..0] && o[..2][..1] == o[..1] && o[..3][..2] == o[..2]
        && o[..4][..3] == o[..3] && o[..5][..4] == o[..4] && o[..5] == o;
    var a := SectionProblems(table, BellTable);
    var b := a + SectionProblems(table, UiTable);
    var c := b + SectionProblems(table, PanesTable);
    var d := c + SectionProblems(table, GitTable);
    assert SectionsProblems(table, o[..1]) == a;
    assert SectionsProblems(table, o[..2]) == b;
    assert SectionsProblems(table, o[..3]) == c;
    assert SectionsProblems(table, o[..4]) == d;
    assert SectionsProblems(table, o[..5]) == d + SectionProblems(table, DeliveryTable);
  }
}
