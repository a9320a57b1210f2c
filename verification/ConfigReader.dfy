/** Reading `config.toml`: `parse` of crates/config/src/lib.rs with `read_git` and
    `read_delivery`, each key checked on its own. */
module ConfigReader {
  import opened Prelude
  import opened ConfigModel

  const DEFAULTS := Config(
    5000,
    Bell(true, false),
    Ui(None, 300),
    6,
    Git(true, 30, 300, []),
    Delivery(60, 300, 2_097_152, 2, 3, 120, [], true, OnConflict, false, (300, 800)))

  /** Top-level keys read by parts of the configuration that are not modelled. */
  const ELSEWHERE: set<string> :=
    {"prefix", "accent", "default_runtime", "runtimes", "conversation", "orchestrator", "models", "testing", "theme",
     "target_pool", "lessons"}

  const SCROLLBACK := "scrollback_lines"
  const LEGACY_WIDTH := "sidebar_width"

  /** The tables in the order they are read. */
  const READ_ORDER: seq<Section> := [BellTable, UiTable, PanesTable, GitTable, DeliveryTable]

  predicate IsSection(k: string) {
    exists j :: 0 <= j < |READ_ORDER| && Name(READ_ORDER[j]) == k
  }

  predicate IsKnown(s: Section, k: string) {
    exists j :: 0 <= j < |Schema(s)| && Schema(s)[j].name == k
  }

  /** A table's contents, empty when it is missing or not a table. */
  function Contents(table: Table, s: Section): Table {
    if Name(s) in table && table[Name(s)].Tab? then table[Name(s)].t else map[]
  }

  function ConfigOf(table: Table): Config {
    var d := DEFAULTS;
    Config(
      IntOr(table, SCROLLBACK, 0, 100_000, d.scrollbackLines),
      ReadBell(Contents(table, BellTable), d.bell),
      ReadUi(Contents(table, UiTable), d.ui.(sidebarWidth := WidthOr(table, d.ui.sidebarWidth))),
      IntOr(Contents(table, PanesTable), "max", 1, 16, d.panesMax),
      ReadGit(Contents(table, GitTable), d.git),
      ReadDelivery(Contents(table, DeliveryTable), d.delivery))
  }

  // ---- Which keys are reported ----

  function SectionProblems(table: Table, s: Section): seq<Problem> {
    if Name(s) in table && !table[Name(s)].Tab? then [Problem([Name(s)], NotATable)]
    else SchemaProblems(Name(s), Schema(s), Contents(table, s))
  }

  function SectionsProblems(table: Table, sections: seq<Section>): seq<Problem> {
    if sections == [] then []
    else SectionsProblems(table, sections[..|sections| - 1]) + SectionProblems(table, sections[|sections| - 1])
  }

  function TopProblems(table: Table): seq<Problem> {
    (if SCROLLBACK in table && !InRange(table[SCROLLBACK], 0, 100_000)
     then [Problem([SCROLLBACK], OutOfRange)] else []) +
    (if LEGACY_WIDTH in table
     then [Problem([LEGACY_WIDTH], if InRange(table[LEGACY_WIDTH], 24, 60) then Renamed else OutOfRange)] else [])
  }

  /** The keys a table's reader refuses: the table itself when it is no table, else each
      known key whose value it may not have. */
  ghost predicate SectionRefuses(table: Table, s: Section, key: seq<string>) {
    && Name(s) in table
    && if table[Name(s)].Tab? then
         var t := table[Name(s)].t;
         exists j :: 0 <= j < |Schema(s)| && key == [Name(s), Schema(s)[j].name] && Schema(s)[j].name in t
                     && !Accepts(Schema(s)[j].rule, t[Schema(s)[j].name])
       else key == [Name(s)]
  }

  ghost predicate TopRefuses(table: Table, key: seq<string>) {
    || (key == [SCROLLBACK] && SCROLLBACK in table && !InRange(table[SCROLLBACK], 0, 100_000))
    || (key == [LEGACY_WIDTH] && LEGACY_WIDTH in table)
  }

  ghost predicate UnreadIn(s: Section, t: Table, key: seq<string>) {
    |key| == 2 && key[0] == Name(s) && key[1] in t && !IsKnown(s, key[1])
  }

  /** Keys nothing reads, at the top or inside a table. */
  ghost predicate Unread(table: Table, key: seq<string>) {
    && key != [] && key[0] in table
    && if IsSection(key[0]) then
         table[key[0]].Tab? && UnreadIn(SectionOf(key[0]), table[key[0]].t, key)
       else |key| == 1 && key[0] !in ELSEWHERE && key[0] != SCROLLBACK && key[0] != LEGACY_WIDTH
  }

  /** The keys of `[delivery]` that a profile sets get a hint of their own. */
  function WhyUnread(key: seq<string>): Why {
    if key == ["delivery", "mode"] || key == ["delivery", "remote"] then SetInProfile else UnknownKey
  }

  ghost predicate UnknownIn(s: Section, t: Table, p: Problem) {
    UnreadIn(s, t, p.key) && p.why == WhyUnread(p.key)
  }

  /** The problem of a key nothing reads. */
  ghost predicate Unknown(table: Table, p: Problem) {
    Unread(table, p.key) && p.why == WhyUnread(p.key)
  }

  lemma UnreadStart(s: Section, t: Table, key: seq<string>)
    ensures UnreadIn(s, t, key) ==> key != [] && key[0] == Name(s)
  {
  }

  lemma NotDelivery(k: string)
    ensures WhyUnread([k]) == UnknownKey
  {
  }

  /** `collect` into an Option: the logins of all items, None at the first that is none. */
  method ReadLogins(items: seq<Value>) returns (logins: Option<seq<string>>)
    ensures logins == if AreLogins(Array(items)) then Some(LoginsOf(items)) else None
  {
    hide IsLogin;
    var read := [];
    for i := 0 to |items|
      invariant AreLogins(Array(items[..i])) && read == LoginsOf(items[..i])
    {
      if !items[i].Text? || !IsLogin(items[i].s) {
        assert !AreLogins(Array(items));
        return None;
      }
      read := read + [items[i].s];
      assert items[..i + 1] == items[..i] + [items[i]];
    }
    assert items[..|items|] == items;
    return Some(read);
  }

  lemma SectionAccounts(table: Table, s: Section, key: seq<string>)
    ensures Named(SectionProblems(table, s), key) <==> SectionRefuses(table, s, key)
  {
    hide Schema;
    hide Accepts;
    hide SchemaProblems;
    if Name(s) in table && !table[Name(s)].Tab? {
      assert SectionProblems(table, s)[0].key == [Name(s)];
    } else {
      SchemaAccounts(Name(s), Schema(s), Contents(table, s), key);
    }
  }

  lemma {:induction false} SectionsAccount(table: Table, sections: seq<Section>, key: seq<string>)
    ensures Named(SectionsProblems(table, sections), key) <==>
            exists j :: 0 <= j < |sections| && SectionRefuses(table, sections[j], key)
    decreases |sections|
  {
    hide Named;
    hide SectionRefuses;
    hide SectionProblems;
    if sections == [] {
      NothingNamed(key);
    } else {
      var n := |sections| - 1;
      SectionsAccount(table, sections[..n], key);
      SectionAccounts(table, sections[n], key);
      NamedAppend(SectionsProblems(table, sections[..n]), SectionProblems(table, sections[n]), key);
    }
  }

  lemma TopAccounts(table: Table, key: seq<string>)
    ensures Named(TopProblems(table), key) <==> TopRefuses(table, key)
  {
    var ps := TopProblems(table);
    if SCROLLBACK in table && !InRange(table[SCROLLBACK], 0, 100_000) {
      assert ps[0].key == [SCROLLBACK];
    }
    if LEGACY_WIDTH in table {
      assert ps[|ps| - 1].key == [LEGACY_WIDTH];
    }
  }

  // ---- The reader ----

  class Reader {
    var config: Config
    var problems: seq<Problem>

    constructor ()
      ensures config == DEFAULTS && problems == []
    {
      config, problems := DEFAULTS, [];
    }

    /** `read_bool_key` */
    method ReadBool(t: Table, section: string, k: string, field: bool) returns (b: bool)
      modifies `problems
      ensures b == BoolOr(t, k, field)
      ensures problems == old(problems) + KeyProblems(section, Key(k, Boolean), t)
    {
      b := field;
      if k in t {
        if t[k].Bool? {
          b := t[k].b;
        } else {
          problems := problems + [Problem([section, k], NotABoolean)];
        }
      }
    }

    /** `read_u64_in_range`, `ranged` */
    method ReadRange(t: Table, section: string, k: string, lo: int, hi: int, field: int) returns (n: int)
      modifies `problems
      ensures n == IntOr(t, k, lo, hi, field)
      ensures problems == old(problems) + KeyProblems(section, Key(k, Range(lo, hi)), t)
    {
      n := field;
      if k in t {
        if InRange(t[k], lo, hi) {
          n := t[k].n;
        } else {
          problems := problems + [Problem([section, k], OutOfRange)];
        }
      }
    }

    /** The loop of `read_ignore`: a bad entry costs that entry alone. */
    method ReadEntries(items: seq<Value>, where: seq<string>) returns (ignore: seq<string>)
      modifies `problems
      ensures ignore == First(Entries(items), IGNORE_MAX)
      ensures problems == old(problems) + IgnoreProblems(where, items)
    {
      hide IsIgnoreEntry;
      hide IgnoreProblems;
      hide First;
      ignore := [];
      var i := 0;
      while i < |items| && |ignore| < IGNORE_MAX
        invariant 0 <= i <= |items| && StopsAt(items[..i]) == i
        invariant ignore == Entries(items[..i]) && |ignore| <= IGNORE_MAX
        invariant problems == old(problems) + EntryProblems(where, items[..i])
      {
        assert items[..i + 1][..i] == items[..i];
        EntriesAreText(items[i]);
        if !items[i].Text? {
          problems := problems + [Problem(where, NotAString)];
        } else if IsIgnoreEntry(items[i]) {
          ignore := ignore + [items[i].s];
        } else {
          problems := problems + [Problem(where, BadEntry)];
        }
        i := i + 1;
      }
      if i < |items| {
        problems := problems + [Problem(where, TooManyEntries)];
      }
      ReadUpTo(where, items, i);
    }

    /** `read_ignore` */
    method ReadIgnore(t: Table, section: string, field: seq<string>) returns (ignore: seq<string>)
      modifies `problems
      ensures ignore == IgnoreOr(t, field)
      ensures problems == old(problems) + KeyProblems(section, Key("ignore", IgnoreList), t)
    {
      hide IgnoreProblems;
      hide First;
      hide Accepts;
      ignore := field;
      if "ignore" in t {
        var v := t["ignore"];
        if v.Array? {
          ignore := ReadEntries(v.items, [section, "ignore"]);
          IgnoreAccounts([section, "ignore"], v.items, []);
          assert v == Array(v.items);
        } else {
          OnlyArrays(v);
          problems := problems + [Problem([section, "ignore"], NotAnArray)];
        }
      }
    }

    /** `read_reviewers`: the items up to the first that is no login, all or none taken. */
    method ReadReviewers(t: Table, section: string, field: seq<string>) returns (logins: seq<string>)
      modifies `problems
      ensures logins == ReviewersOr(t, field)
      ensures problems == old(problems) + KeyProblems(section, Key("reviewers", Logins), t)
    {
      hide IsLogin;
      logins := field;
      if "reviewers" in t {
        var v := t["reviewers"];
        var read: Option<seq<string>> := None;
        if v.Array? {
          read := ReadLogins(v.items);
        }
        if read.Some? {
          logins := read.value;
        } else {
          problems := problems + [Problem([section, "reviewers"], NotLogins)];
        }
      }
    }

    method ReadSync(t: Table, section: string, field: Sync) returns (sync: Sync)
      modifies `problems
      ensures sync == SyncOr(t, field)
      ensures problems == old(problems) + KeyProblems(section, Key("sync", SyncPolicy), t)
    {
      sync := field;
      if "sync" in t {
        if t["sync"] == Text("on_conflict") {
          sync := OnConflict;
        } else if t["sync"] == Text("always") {
          sync := Always;
        } else {
          problems := problems + [Problem([section, "sync"], NotASyncPolicy)];
        }
      }
    }

    method ReadPair(t: Table, section: string, k: string, lo: int, hi: int, field: (int, int)) returns (p: (int, int))
      modifies `problems
      ensures p == PairOr(t, k, lo, hi, field)
      ensures problems == old(problems) + KeyProblems(section, Key(k, Ascending(lo, hi)), t)
    {
      p := field;
      if k in t {
        var pair: Option<(int, int)> := None;
        if t[k].Array? && |t[k].items| == 2 {
          var low, high := t[k].items[0], t[k].items[1];
          if InRange(low, lo, hi) && InRange(high, lo, hi) && low.n < high.n {
            pair := Some((low.n, high.n));
          }
        }
        if pair.Some? {
          p := pair.value;
        } else {
          problems := problems + [Problem([section, k], NotAPair)];
        }
      }
    }

    method ReadBellTable(t: Table)
      modifies this
      ensures config == old(config).(bell := ReadBell(t, old(config).bell))
      ensures problems == old(problems) + SchemaProblems("bell", Schema(BellTable), t)
    {
      hide KeyProblems;
      ghost var before := problems;
      ghost var keys := Schema(BellTable);
      var attention := ReadBool(t, "bell", "attention", config.bell.attention);
      NextKey("bell", keys, 0, t, old(problems), before, problems);
      before := problems;
      var done := ReadBool(t, "bell", "done", config.bell.done);
      NextKey("bell", keys, 1, t, old(problems), before, problems);
      before := problems;
      assert keys[..2] == keys;
      config := config.(bell := Bell(attention, done));
    }

    method ReadUiTable(t: Table)
      modifies this
      ensures config == old(config).(ui := ReadUi(t, old(config).ui))
      ensures problems == old(problems) + SchemaProblems("ui", Schema(UiTable), t)
    {
      hide KeyProblems;
      ghost var before := problems;
      ghost var keys := Schema(UiTable);
      var width := ReadRange(t, "ui", "sidebar_width", 24, 60, 0);
      NextKey("ui", keys, 0, t, old(problems), before, problems);
      before := problems;
      var secs := ReadRange(t, "ui", "tree_keep_finished_secs", 0, 300, config.ui.treeKeepFinishedSecs);
      NextKey("ui", keys, 1, t, old(problems), before, problems);
      before := problems;
      assert keys[..2] == keys;
      config := config.(ui := Ui(if width == 0 then config.ui.sidebarWidth else Some(width), secs));
    }

    method ReadPanesTable(t: Table)
      modifies this
      ensures config == old(config).(panesMax := IntOr(t, "max", 1, 16, old(config).panesMax))
      ensures problems == old(problems) + SchemaProblems("panes", Schema(PanesTable), t)
    {
      hide KeyProblems;
      ghost var before := problems;
      ghost var keys := Schema(PanesTable);
      var max := ReadRange(t, "panes", "max", 1, 16, config.panesMax);
      NextKey("panes", keys, 0, t, old(problems), before, problems);
      before := problems;
      assert keys[..1] == keys;
      config := config.(panesMax := max);
    }

    method ReadGitTable(t: Table)
      modifies this
      ensures config == old(config).(git := ReadGit(t, old(config).git))
      ensures problems == old(problems) + SchemaProblems("git", Schema(GitTable), t)
    {
      hide KeyProblems;
      ghost var before := problems;
      ghost var keys := Schema(GitTable);
      var enabled := ReadBool(t, "git", "enabled", config.git.enabled);
      NextKey("git", keys, 0, t, old(problems), before, problems);
      before := problems;
      var poll := ReadRange(t, "git", "poll_secs", 5, 3600, config.git.pollSecs);
      NextKey("git", keys, 1, t, old(problems), before, problems);
      before := problems;
      var debounce := ReadRange(t, "git", "debounce_ms", 50, 5000, config.git.debounceMs);
      NextKey("git", keys, 2, t, old(problems), before, problems);
      before := problems;
      var ignore := ReadIgnore(t, "git", config.git.ignore);
      NextKey("git", keys, 3, t, old(problems), before, problems);
      before := problems;
      assert keys[..4] == keys;
      config := config.(git := Git(enabled, poll, debounce, ignore));
    }

    /** The first six keys of `[delivery]`, all `ranged`. */
    method ReadLimits(t: Table)
      returns (poll: int, pollMax: int, bytes: int, ciFix: int, reviewFix: int, batch: int)
      modifies `problems
      ensures var d := ReadDelivery(t, config.delivery);
              && poll == d.pollSecs && pollMax == d.pollMaxSecs && bytes == d.ciLogMaxBytes
              && ciFix == d.ciFixMax && reviewFix == d.reviewFixMax && batch == d.reviewBatchSecs
      ensures problems == old(problems) + SchemaProblems("delivery", Schema(DeliveryTable)[..6], t)
    {
      hide KeyProblems;
      hide SchemaProblems;
      hide IntOr;
      hide ReviewersOr;
      hide SyncOr;
      hide PairOr;
      ghost var before := problems;
      ghost var keys := Schema(DeliveryTable);
      NoKeys("delivery", t);
      assert keys[..0] == [];
      var d := config.delivery;
      poll := ReadRange(t, "delivery", "poll_secs", 1, 3600, d.pollSecs);
      NextKey("delivery", keys, 0, t, old(problems), before, problems);
      before := problems;
      pollMax := ReadRange(t, "delivery", "poll_max_secs", 1, 3600, d.pollMaxSecs);
      NextKey("delivery", keys, 1, t, old(problems), before, problems);
      before := problems;
      bytes := ReadRange(t, "delivery", "ci_log_max_bytes", 4096, 16_777_216, d.ciLogMaxBytes);
      NextKey("delivery", keys, 2, t, old(problems), before, problems);
      before := problems;
      ciFix := ReadRange(t, "delivery", "ci_fix_max", 0, 10, d.ciFixMax);
      NextKey("delivery", keys, 3, t, old(problems), before, problems);
      before := problems;
      reviewFix := ReadRange(t, "delivery", "review_fix_max", 0, 10, d.reviewFixMax);
      NextKey("delivery", keys, 4, t, old(problems), before, problems);
      before := problems;
      batch := ReadRange(t, "delivery", "review_batch_secs", 0, 3600, d.reviewBatchSecs);
      NextKey("delivery", keys, 5, t, old(problems), before, problems);
    }

    method ReadDeliveryTable(t: Table)
      modifies this
      ensures config == old(config).(delivery := ReadDelivery(t, old(config).delivery))
      ensures problems == old(problems) + SchemaProblems("delivery", Schema(DeliveryTable), t)
    {
      hide KeyProblems;
      hide SchemaProblems;
      hide IntOr;
      hide BoolOr;
      hide ReviewersOr;
      hide SyncOr;
      hide PairOr;
      ghost var keys := Schema(DeliveryTable);
      var d := config.delivery;
      var poll, pollMax, bytes, ciFix, reviewFix, batch := ReadLimits(t);
      ghost var before := problems;
      var reviewers := ReadReviewers(t, "delivery", d.reviewers);
      NextKey("delivery", keys, 6, t, old(problems), before, problems);
      before := problems;
      var reply := ReadBool(t, "delivery", "reply_to_comments", d.replyToComments);
      NextKey("delivery", keys, 7, t, old(problems), before, problems);
      before := problems;
      var sync := ReadSync(t, "delivery", d.sync);
      NextKey("delivery", keys, 8, t, old(problems), before, problems);
      before := problems;
      var delete := ReadBool(t, "delivery", "delete_merged_branches", d.deleteMergedBranches);
      NextKey("delivery", keys, 9, t, old(problems), before, problems);
      before := problems;
      var target := ReadPair(t, "delivery", "stage_target_lines", 50, 5000, d.stageTargetLines);
      NextKey("delivery", keys, 10, t, old(problems), before, problems);
      assert keys[..11] == keys;
      config := config.(delivery :=
        Delivery(poll, pollMax, bytes, ciFix, reviewFix, batch, reviewers, reply, sync, delete, target));
    }

    /** `report_unknown_nested`, `report_unknown_delivery`: each unknown key is reported once
        more, after everything reported before. */
    method ReportNested(s: Section, t: Table)
      modifies `problems
      ensures old(problems) <= problems
      ensures forall p :: Times(problems, p) == Times(old(problems), p) + if UnknownIn(s, t, p) then 1 else 0
    {
      hide IsKnown;
      hide Times;
      hide WhyUnread;
      var rest := t.Keys;
      while rest != {}
        invariant rest <= t.Keys && old(problems) <= problems
        invariant forall p :: Times(problems, p) ==
                    Times(old(problems), p) + if UnknownIn(s, t, p) && p.key[1] !in rest then 1 else 0
      {
        var k :| k in rest;
        rest := rest - {k};
        if !IsKnown(s, k) {
          var q := Problem([Name(s), k], WhyUnread([Name(s), k]));
          forall p | UnknownIn(s, t, p) && p.key[1] == k ensures p == q {
            assert p.key == [Name(s), k];
          }
          Report(q);
        }
      }
    }

    method Report(q: Problem)
      modifies `problems
      ensures problems == old(problems) + [q]
      ensures forall p :: Times(problems, p) == Times(old(problems), p) + if p == q then 1 else 0
    {
      hide Times;
      ghost var before := problems;
      problems := problems + [q];
      forall p ensures Times(problems, p) == Times(before, p) + if p == q then 1 else 0 {
        TimesAppend(before, [q], p);
        TimesOne(q, p);
      }
    }

    /** `report_unknown_keys`: each key nothing reads is reported once more. */
    method ReportUnknown(table: Table)
      modifies `problems
      ensures old(problems) <= problems
      ensures forall p :: Times(problems, p) == Times(old(problems), p) + if Unknown(table, p) then 1 else 0
    {
      hide IsKnown;
      hide Times;
      hide UnreadIn;
      var rest := table.Keys;
      while rest != {}
        invariant rest <= table.Keys && old(problems) <= problems
        invariant forall p :: Times(problems, p) ==
                    Times(old(problems), p) + if Unknown(table, p) && p.key[0] !in rest then 1 else 0
      {
        var k :| k in rest;
        rest := rest - {k};
        if IsSection(k) {
          NamesDiffer();
          if table[k].Tab? {
            ghost var t := table[k].t;
            forall p ensures UnknownIn(SectionOf(k), t, p) <==> Unknown(table, p) && p.key[0] == k {
              UnreadStart(SectionOf(k), t, p.key);
            }
            ReportNested(SectionOf(k), table[k].t);
          }
        } else if k !in ELSEWHERE && k != SCROLLBACK && k != LEGACY_WIDTH {
          NotDelivery(k);
          Report(Problem([k], UnknownKey));
        }
      }
    }

    /** The top-level keys read here; the old `sidebar_width` is read before `[ui]`, which
        wins. */
    method ReadTop(table: Table)
      modifies this
      ensures config == old(config).(
        scrollbackLines := IntOr(table, SCROLLBACK, 0, 100_000, old(config).scrollbackLines),
        ui := old(config).ui.(sidebarWidth := WidthOr(table, old(config).ui.sidebarWidth)))
      ensures problems == old(problems) + TopProblems(table)
    {
      if SCROLLBACK in table {
        if InRange(table[SCROLLBACK], 0, 100_000) {
          config := config.(scrollbackLines := table[SCROLLBACK].n);
        } else {
          problems := problems + [Problem([SCROLLBACK], OutOfRange)];
        }
      }
      if LEGACY_WIDTH in table {
        if InRange(table[LEGACY_WIDTH], 24, 60) {
          config := config.(ui := config.ui.(sidebarWidth := Some(table[LEGACY_WIDTH].n)));
          problems := problems + [Problem([LEGACY_WIDTH], Renamed)];
        } else {
          problems := problems + [Problem([LEGACY_WIDTH], OutOfRange)];
        }
      }
    }

    /** Every reader of `parse`, in order. */
    method ReadAll(table: Table)
      requires config == DEFAULTS && problems == []
      modifies this
      ensures config == ConfigOf(table) && problems == ReadProblems(table)
    {
      hide SectionProblems;
      hide TopProblems;
      hide WithSection;
      hide ReadBell;
      hide ReadUi;
      hide ReadGit;
      hide ReadDelivery;
      hide IntOr;
      hide WidthOr;
      hide Contents;
      ReadTop(table);
      ghost var start := config;
      assert problems == TopProblems(table);
      for i := 0 to |READ_ORDER|
        invariant problems == TopProblems(table) + SectionsProblems(table, READ_ORDER[..i])
        invariant config == Sections(start, table, READ_ORDER[..i])
      {
        ReadSection(table, READ_ORDER[i]);
        assert READ_ORDER[..i + 1][..i] == READ_ORDER[..i];
      }
      assert READ_ORDER[..|READ_ORDER|] == READ_ORDER;
      AllSections(start, table);
    }

    /** One table: missing, not a table, or read. */
    method ReadSection(table: Table, s: Section)
      modifies this
      ensures config == WithSection(old(config), s, Contents(table, s))
      ensures problems == old(problems) + SectionProblems(table, s)
    {
      hide Schema;
      hide ReadBell;
      hide ReadUi;
      hide ReadGit;
      hide ReadDelivery;
      var name := Name(s);
      if name in table && !table[name].Tab? {
        problems := problems + [Problem([name], NotATable)];
        ReadingNothing(config, s);
      } else if name in table {
        match s {
          case BellTable => ReadBellTable(table[name].t);
          case UiTable => ReadUiTable(table[name].t);
          case PanesTable => ReadPanesTable(table[name].t);
          case GitTable => ReadGitTable(table[name].t);
          case DeliveryTable => ReadDeliveryTable(table[name].t);
        }
      } else {
        ReadingNothing(config, s);
        NothingToReport(name, Schema(s));
      }
    }
  }

  function WithSection(c: Config, s: Section, t: Table): Config {
    match s
    case BellTable => c.(bell := ReadBell(t, c.bell))
    case UiTable => c.(ui := ReadUi(t, c.ui))
    case PanesTable => c.(panesMax := IntOr(t, "max", 1, 16, c.panesMax))
    case GitTable => c.(git := ReadGit(t, c.git))
    case DeliveryTable => c.(delivery := ReadDelivery(t, c.delivery))
  }

  lemma ReadingNothing(c: Config, s: Section)
    ensures WithSection(c, s, map[]) == c
  {
  }

  lemma {:induction false} NothingToReport(section: string, keys: seq<Key>)
    ensures SchemaProblems(section, keys, map[]) == []
    decreases |keys|
  {
    if keys != [] {
      NothingToReport(section, keys[..|keys| - 1]);
    }
  }

  function SectionOf(k: string): (s: Section)
    requires IsSection(k)
    ensures Name(s) == k
  {
    if k == "bell" then BellTable else if k == "ui" then UiTable else if k == "panes" then PanesTable
    else if k == "git" then GitTable else DeliveryTable
  }

  lemma EverySectionIsRead(s: Section)
    ensures exists j :: 0 <= j < |READ_ORDER| && READ_ORDER[j] == s
  {
    var j := match s
      case BellTable => 0
      case UiTable => 1
      case PanesTable => 2
      case GitTable => 3
      case DeliveryTable => 4;
    assert READ_ORDER[j] == s;
  }

  lemma NamesDiffer()
    ensures forall s: Section, u: Section :: Name(s) == Name(u) ==> s == u
    ensures forall s: Section :: IsSection(Name(s))
  {
    forall s: Section ensures IsSection(Name(s)) {
      EverySectionIsRead(s);
      assert exists j :: 0 <= j < |READ_ORDER| && Name(READ_ORDER[j]) == Name(s);
    }
  }

  lemma EntriesAreText(v: Value)
    ensures IsIgnoreEntry(v) ==> v.Text?
  {
  }

  lemma OnlyArrays(v: Value)
    ensures Accepts(IgnoreList, v) ==> v.Array?
  {
  }

  lemma NoKeys(section: string, t: Table)
    ensures SchemaProblems(section, [], t) == []
  {
  }

  lemma {:induction false} StopsBy(items: seq<Value>, i: nat)
    requires i <= |items| && StopsAt(items[..i]) == i && (i < |items| ==> |Entries(items[..i])| >= IGNORE_MAX)
    ensures StopsAt(items) == i
    decreases |items|
  {
    if i == |items| {
      assert items[..i] == items;
    } else {
      var n := |items| - 1;
      assert items[..n][..i] == items[..i];
      StopsBy(items[..n], i);
      if i == n {
        assert items[..n] == items[..i];
      }
    }
  }

  /** What the loop has read when it stops at item i is all that counts of the list. */
  lemma ReadUpTo(where: seq<string>, items: seq<Value>, i: nat)
    requires i <= |items| && StopsAt(items[..i]) == i && (i < |items| ==> |Entries(items[..i])| >= IGNORE_MAX)
    ensures Entries(items[..i]) == First(Entries(items), IGNORE_MAX)
    ensures IgnoreProblems(where, items) ==
            EntryProblems(where, items[..i]) + if i < |items| then [Problem(where, TooManyEntries)] else []
  {
    StopsBy(items, i);
    StoppedEntries(items);
  }

  // ---- The whole file ----

  /** Every numeric field within its declared bounds. */
  predicate InBounds(c: Config) {
    && 0 <= c.scrollbackLines <= 100_000
    && (c.ui.sidebarWidth.Some? ==> 24 <= c.ui.sidebarWidth.value <= 60)
    && 0 <= c.ui.treeKeepFinishedSecs <= 300 && 1 <= c.panesMax <= 16
    && 5 <= c.git.pollSecs <= 3600 && 50 <= c.git.debounceMs <= 5000
    && |c.git.ignore| <= IGNORE_MAX
    && 1 <= c.delivery.pollSecs <= 3600 && 1 <= c.delivery.pollMaxSecs <= 3600
    && 4096 <= c.delivery.ciLogMaxBytes <= 16_777_216 && 0 <= c.delivery.ciFixMax <= 10
    && 0 <= c.delivery.reviewFixMax <= 10 && 0 <= c.delivery.reviewBatchSecs <= 3600
    && 50 <= c.delivery.stageTargetLines.0 < c.delivery.stageTargetLines.1 <= 5000
  }

  lemma AlwaysInBounds(table: Table)
    ensures InBounds(ConfigOf(table))
  {
  }

  /** The keys that get a problem. */
  ghost predicate Reported(table: Table, key: seq<string>) {
    || TopRefuses(table, key)
    || (exists j :: 0 <= j < |READ_ORDER| && SectionRefuses(table, READ_ORDER[j], key))
    || Unread(table, key)
  }

  /** The problems of the keys that are read, in order. */
  function ReadProblems(table: Table): seq<Problem> {
    TopProblems(table) + SectionsProblems(table, READ_ORDER)
  }

  /** How often `parse` reports a problem. */
  ghost function Expected(table: Table, p: Problem): nat {
    Times(ReadProblems(table), p) + if Unknown(table, p) then 1 else 0
  }

  /** `parse`, from the parsed TOML or its syntax error: the fields are each key's own; the
      problems of keys that are read come first and in order, those of unknown keys follow,
      each once. */
  method Parse(parsed: Option<Table>) returns (c: Config, ps: seq<Problem>)
    ensures parsed.None? ==> c == DEFAULTS && ps == [Problem(["<config>"], InvalidToml)]
    ensures parsed.Some? ==> c == ConfigOf(parsed.value) && ReadProblems(parsed.value) <= ps
    ensures parsed.Some? ==> forall p :: Times(ps, p) == Expected(parsed.value, p)
    ensures parsed.Some? ==> forall key :: Named(ps, key) <==> Reported(parsed.value, key)
    ensures InBounds(c)
  {
    hide Named;
    hide Times;
    hide Unknown;
    hide Reported;
    hide ReadProblems;
    hide ConfigOf;
    hide InBounds;
    var r := new Reader();
    AlwaysInBounds(map[]);
    DefaultsAreEmpty();
    if parsed.None? {
      return DEFAULTS, [Problem(["<config>"], InvalidToml)];
    }
    var table := parsed.value;
    AlwaysInBounds(table);
    r.ReadAll(table);
    r.ReportUnknown(table);
    ExpectedNames(table, r.problems);
    return r.config, r.problems;
  }

  /** The keys so named are exactly the reported ones. */
  lemma ExpectedNames(table: Table, ps: seq<Problem>)
    requires forall p :: Times(ps, p) == Expected(table, p)
    ensures forall key :: Named(ps, key) <==> Reported(table, key)
  {
    hide Times;
    hide Named;
    hide TopRefuses;
    hide SectionRefuses;
    hide Unread;
    hide ReadProblems;
    ReadAccounts(table);
    var read := ReadProblems(table);
    forall key ensures Named(ps, key) <==> Reported(table, key) {
      NamedIsTimes(ps, key);
      NamedIsTimes(read, key);
      if Unread(table, key) {
        var p := Problem(key, WhyUnread(key));
        assert Unknown(table, p) && Times(ps, p) > 0;
      }
      if p: Problem :| p.key == key && Times(read, p) > 0 {
        assert Times(ps, p) > 0;
      }
    }
  }

  lemma ReadAccounts(table: Table)
    ensures forall key :: Named(ReadProblems(table), key) <==>
              TopRefuses(table, key) || exists j :: 0 <= j < |READ_ORDER| && SectionRefuses(table, READ_ORDER[j], key)
  {
    hide Named;
    hide SectionsProblems;
    hide TopProblems;
    hide SectionRefuses;
    hide TopRefuses;
    var top, more := TopProblems(table), SectionsProblems(table, READ_ORDER);
    forall key ensures Named(top + more, key) <==>
      TopRefuses(table, key) || exists j :: 0 <= j < |READ_ORDER| && SectionRefuses(table, READ_ORDER[j], key)
    {
      TopAccounts(table, key);
      SectionsAccount(table, READ_ORDER, key);
      NamedAppend(top, more, key);
    }
  }

  function Sections(c: Config, table: Table, sections: seq<Section>): Config {
    if sections == [] then c
    else
      var n := |sections| - 1;
      WithSection(Sections(c, table, sections[..n]), sections[n], Contents(table, sections[n]))
  }

  lemma AllSections(c: Config, table: Table)
    ensures Sections(c, table, READ_ORDER) == Config(
      c.scrollbackLines,
      ReadBell(Contents(table, BellTable), c.bell),
      ReadUi(Contents(table, UiTable), c.ui),
      IntOr(Contents(table, PanesTable), "max", 1, 16, c.panesMax),
      ReadGit(Contents(table, GitTable), c.git),
      ReadDelivery(Contents(table, DeliveryTable), c.delivery))
  {
    hide ReadBell;
    hide ReadUi;
    hide ReadGit;
    hide ReadDelivery;
    hide Contents;
    var o := READ_ORDER;
    assert o[..0] == [] && o[..1][..0] == o[..0] && o[..2][..1] == o[..1] && o[..3][..2] == o[..2]
        && o[..4][..3] == o[..3] && o[..5][..4] == o[..4] && o[..5] == o;
    var c1 := WithSection(c, BellTable, Contents(table, BellTable));
    var c2 := WithSection(c1, UiTable, Contents(table, UiTable));
    var c3 := WithSection(c2, PanesTable, Contents(table, PanesTable));
    var c4 := WithSection(c3, GitTable, Contents(table, GitTable));
    assert Sections(c, table, o[..1]) == c1;
    assert Sections(c, table, o[..2]) == c2;
    assert Sections(c, table, o[..3]) == c3;
    assert Sections(c, table, o[..4]) == c4;
    assert Sections(c, table, o[..5]) == WithSection(c4, DeliveryTable, Contents(table, DeliveryTable));
  }

  lemma DefaultsAreEmpty()
    ensures ConfigOf(map[]) == DEFAULTS
  {
  }

  /** A present key of a table is reported exactly when it is not a known key with a value
      it may have: nothing is dropped silently and nothing is reported in vain. */
  lemma EveryKeyIsAccounted(table: Table, s: Section, k: string)
    requires Name(s) in table && table[Name(s)].Tab? && k in table[Name(s)].t
    ensures Reported(table, [Name(s), k]) <==>
            !exists j :: 0 <= j < |Schema(s)| && Schema(s)[j].name == k &&
                         Accepts(Schema(s)[j].rule, table[Name(s)].t[k])
  {
    hide Accepts;
    NamesDiffer();
    SchemaNamesDiffer(s);
    var t := table[Name(s)].t;
    var key := [Name(s), k];
    assert !TopRefuses(table, key);
    assert SectionOf(Name(s)) == s;
    assert Unread(table, key) <==> !IsKnown(s, k);
    var i :| 0 <= i < |READ_ORDER| && READ_ORDER[i] == s;
    assert forall j | 0 <= j < |READ_ORDER| :: SectionRefuses(table, READ_ORDER[j], key) ==> READ_ORDER[j] == s;
  }

  lemma SchemaNamesDiffer(s: Section)
    ensures forall i, j | 0 <= i < |Schema(s)| && 0 <= j < |Schema(s)| && i != j ::
              Schema(s)[i].name != Schema(s)[j].name
  {
  }
}
