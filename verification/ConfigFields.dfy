/** What each key of `config.toml` does to the configuration, told by writing the
    configuration's fields back as values. */
module ConfigFields {
  import opened Prelude
  import opened ConfigModel
  import opened ConfigReader

  function Texts(xs: seq<string>): seq<Value> {
    seq(|xs|, k requires 0 <= k < |xs| => Text(xs[k]))
  }

  function BellField(b: Bell, k: string): Option<Value> {
    if k == "attention" then Some(Bool(b.attention))
    else if k == "done" then Some(Bool(b.done))
    else None
  }

  function UiField(u: Ui, k: string): Option<Value> {
    if k == "sidebar_width" then if u.sidebarWidth.Some? then Some(Integer(u.sidebarWidth.value)) else None
    else if k == "tree_keep_finished_secs" then Some(Integer(u.treeKeepFinishedSecs))
    else None
  }

  function GitField(g: Git, k: string): Option<Value> {
    if k == "enabled" then Some(Bool(g.enabled))
    else if k == "poll_secs" then Some(Integer(g.pollSecs))
    else if k == "debounce_ms" then Some(Integer(g.debounceMs))
    else if k == "ignore" then Some(Array(Texts(g.ignore)))
    else None
  }

  function DeliveryField(d: Delivery, k: string): Option<Value> {
    if k == "poll_secs" then Some(Integer(d.pollSecs))
    else if k == "poll_max_secs" then Some(Integer(d.pollMaxSecs))
    else if k == "ci_log_max_bytes" then Some(Integer(d.ciLogMaxBytes))
    else if k == "ci_fix_max" then Some(Integer(d.ciFixMax))
    else if k == "review_fix_max" then Some(Integer(d.reviewFixMax))
    else if k == "review_batch_secs" then Some(Integer(d.reviewBatchSecs))
    else if k == "reviewers" then Some(Array(Texts(d.reviewers)))
    else if k == "reply_to_comments" then Some(Bool(d.replyToComments))
    else if k == "sync" then Some(Text(if d.sync == Always then "always" else "on_conflict"))
    else if k == "delete_merged_branches" then Some(Bool(d.deleteMergedBranches))
    else if k == "stage_target_lines" then
      Some(Array([Integer(d.stageTargetLines.0), Integer(d.stageTargetLines.1)]))
    else None
  }

  /** The value of the field a key stands for; None for an unset one and for any other key. */
  function Field(c: Config, s: Section, k: string): Option<Value> {
    match s
    case BellTable => BellField(c.bell, k)
    case UiTable => UiField(c.ui, k)
    case PanesTable => if k == "max" then Some(Integer(c.panesMax)) else None
    case GitTable => GitField(c.git, k)
    case DeliveryTable => DeliveryField(c.delivery, k)
  }

  /** The key is in its table with a value it may have. */
  predicate Set(table: Table, s: Section, key: Key) {
    var t := Contents(table, s);
    key.name in t && Accepts(key.rule, t[key.name])
  }

  // ---- Lists come back as written ----

  lemma {:induction false} GoodEntriesAreAll(items: seq<Value>)
    requires forall k | 0 <= k < |items| :: IsIgnoreEntry(items[k])
    ensures Texts(Entries(items)) == items
    decreases |items|
  {
    if items != [] {
      var n := |items| - 1;
      GoodEntriesAreAll(items[..n]);
      assert Texts(Entries(items)) == Texts(Entries(items[..n])) + [items[n]];
    }
  }

  lemma IgnoreComesBack(t: Table, d: seq<string>)
    requires "ignore" in t && Accepts(IgnoreList, t["ignore"])
    ensures Array(Texts(IgnoreOr(t, d))) == t["ignore"]
  {
    GoodEntriesAreAll(t["ignore"].items);
  }

  lemma ReviewersComeBack(t: Table, d: seq<string>)
    requires "reviewers" in t && AreLogins(t["reviewers"])
    ensures Array(Texts(ReviewersOr(t, d))) == t["reviewers"]
  {
    var items := t["reviewers"].items;
    assert Texts(LoginsOf(items)) == items;
  }

  lemma PairComesBack(t: Table, k: string, lo: int, hi: int, d: (int, int))
    requires k in t && IsPair(t[k], lo, hi)
    ensures var p := PairOr(t, k, lo, hi, d); Array([Integer(p.0), Integer(p.1)]) == t[k]
  {
    assert t[k].items == [t[k].items[0], t[k].items[1]];
  }

  // ---- Every key sets its own field ----

  lemma LimitTaken(t: Table, d: Delivery, j: nat)
    requires j < 6
    requires var key := Schema(DeliveryTable)[j]; key.name in t && Accepts(key.rule, t[key.name])
    ensures DeliveryField(ReadDelivery(t, d), Schema(DeliveryTable)[j].name) == Some(t[Schema(DeliveryTable)[j].name])
  {
    hide ReviewersOr;
    hide SyncOr;
    hide PairOr;
    hide Texts;
  }

  lemma ChoiceTaken(t: Table, d: Delivery, j: nat)
    requires 6 <= j < |Schema(DeliveryTable)|
    requires var key := Schema(DeliveryTable)[j]; key.name in t && Accepts(key.rule, t[key.name])
    ensures DeliveryField(ReadDelivery(t, d), Schema(DeliveryTable)[j].name) == Some(t[Schema(DeliveryTable)[j].name])
  {
    hide ReviewersOr;
    hide PairOr;
    hide Texts;
    hide AreLogins;
    hide IsPair;
    hide IntOr;
    if j == 6 {
      ReviewersComeBack(t, d.reviewers);
    } else if j == 10 {
      PairComesBack(t, "stage_target_lines", 50, 5000, d.stageTargetLines);
    }
  }

  /** A key with a value it may have gives its field exactly that value, whatever else the
      file holds. */
  lemma SetKeyIsTaken(table: Table, s: Section, j: nat)
    requires j < |Schema(s)| && Set(table, s, Schema(s)[j])
    ensures Field(ConfigOf(table), s, Schema(s)[j].name) == Some(Contents(table, s)[Schema(s)[j].name])
  {
    hide Contents;
    hide IgnoreOr;
    hide Texts;
    hide IsIgnoreEntry;
    hide DeliveryField;
    hide ReadDelivery;
    var t := Contents(table, s);
    match s {
      case GitTable =>
        if j == 3 {
          IgnoreComesBack(t, DEFAULTS.git.ignore);
        }
      case DeliveryTable =>
        if j < 6 {
          LimitTaken(t, DEFAULTS.delivery, j);
        } else {
          ChoiceTaken(t, DEFAULTS.delivery, j);
        }
      case _ =>
    }
  }

  lemma LimitDefault(t: Table, d: Delivery, j: nat)
    requires 0 <= j < 6
    requires var key := Schema(DeliveryTable)[j]; key.name !in t || !Accepts(key.rule, t[key.name])
    ensures var k := Schema(DeliveryTable)[j].name; DeliveryField(ReadDelivery(t, d), k) == DeliveryField(d, k)
  {
    hide Texts;
    hide ReviewersOr;
    hide SyncOr;
    hide PairOr;
  }

  lemma ChoiceDefault(t: Table, d: Delivery, j: nat)
    requires 6 <= j < 11
    requires var key := Schema(DeliveryTable)[j]; key.name !in t || !Accepts(key.rule, t[key.name])
    ensures var k := Schema(DeliveryTable)[j].name; DeliveryField(ReadDelivery(t, d), k) == DeliveryField(d, k)
  {
    hide Texts;
    hide IntOr;
    hide AreLogins;
    hide IsPair;
  }

  lemma GitDefault(t: Table, d: Git, j: nat)
    requires j < 3
    requires var key := Schema(GitTable)[j]; key.name !in t || !Accepts(key.rule, t[key.name])
    ensures GitField(ReadGit(t, d), Schema(GitTable)[j].name) == GitField(d, Schema(GitTable)[j].name)
  {
  }

  /** A key that is missing or has another value leaves its field as it is by default. Two
      fields take more: the good entries of `git.ignore`, and the old top-level
      `sidebar_width`. */
  lemma OtherKeyKeepsDefault(table: Table, s: Section, j: nat)
    requires j < |Schema(s)| && !Set(table, s, Schema(s)[j])
    ensures var k := Schema(s)[j].name;
            Field(ConfigOf(table), s, k) ==
            if s == GitTable && k == "ignore" then
              Some(Array(Texts(IgnoreOr(Contents(table, s), []))))
            else if s == UiTable && k == LEGACY_WIDTH && k in table && InRange(table[k], 24, 60) then Some(table[k])
            else Field(DEFAULTS, s, k)
  {
    hide Contents;
    hide IgnoreOr;
    hide Texts;
    hide DeliveryField;
    hide ReadDelivery;
    match s {
      case DeliveryTable =>
        if j < 6 {
          LimitDefault(Contents(table, s), DEFAULTS.delivery, j);
        } else {
          ChoiceDefault(Contents(table, s), DEFAULTS.delivery, j);
        }
      case GitTable =>
        if j < 3 {
          GitDefault(Contents(table, s), DEFAULTS.git, j);
        }
      case _ =>
    }
  }

  /** A field depends on its own key alone: files that agree on the key (for the sidebar's
      width, on its old name too) agree on the field, however they differ elsewhere. */
  lemma KeysDoNotInterfere(a: Table, b: Table, s: Section, j: nat)
    requires j < |Schema(s)|
    requires var k := Schema(s)[j].name; Lookup(Contents(a, s), k) == Lookup(Contents(b, s), k)
    requires s == UiTable && Schema(s)[j].name == LEGACY_WIDTH ==> Lookup(a, LEGACY_WIDTH) == Lookup(b, LEGACY_WIDTH)
    ensures Field(ConfigOf(a), s, Schema(s)[j].name) == Field(ConfigOf(b), s, Schema(s)[j].name)
  {
    hide Contents;
    hide Field;
    hide ConfigOf;
    hide Accepts;
    hide Texts;
    if Set(a, s, Schema(s)[j]) {
      SetKeyIsTaken(a, s, j);
      SetKeyIsTaken(b, s, j);
    } else {
      OtherKeyKeepsDefault(a, s, j);
      OtherKeyKeepsDefault(b, s, j);
    }
  }

  function Lookup(t: Table, k: string): Option<Value> {
    if k in t then Some(t[k]) else None
  }
}
