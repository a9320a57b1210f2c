/** Which values the keys of `config.toml` may have, key by key and in numbers. */
module ConfigLaws {
  import opened Prelude
  import opened ConfigModel
  import opened ConfigReader

  /** The table has a key of this name that may have this value. */
  ghost predicate Takes(s: Section, name: string, v: Value) {
    exists j :: 0 <= j < |Schema(s)| && Schema(s)[j].name == name && Accepts(Schema(s)[j].rule, v)
  }

  lemma TakesAt(s: Section, j: nat, v: Value)
    requires j < |Schema(s)|
    ensures Takes(s, Schema(s)[j].name, v) <==> Accepts(Schema(s)[j].rule, v)
  {
    SchemaNamesDiffer(s);
    hide Schema;
    hide Accepts;
  }

  ghost predicate Between(v: Value, lo: int, hi: int) {
    exists n :: v == Integer(n) && lo <= n <= hi
  }

  lemma RangeIs(v: Value, lo: int, hi: int)
    ensures Accepts(Range(lo, hi), v) <==> Between(v, lo, hi)
  {
    if Accepts(Range(lo, hi), v) {
      assert v == Integer(v.n);
    }
  }

  /** The booleans. */
  lemma BooleanKeys(v: Value)
    ensures Takes(BellTable, "attention", v) <==> v.Bool?
    ensures Takes(BellTable, "done", v) <==> v.Bool?
    ensures Takes(GitTable, "enabled", v) <==> v.Bool?
    ensures Takes(DeliveryTable, "reply_to_comments", v) <==> v.Bool?
    ensures Takes(DeliveryTable, "delete_merged_branches", v) <==> v.Bool?
  {
    hide Takes;
    TakesAt(BellTable, 0, v);
    TakesAt(BellTable, 1, v);
    TakesAt(GitTable, 0, v);
    TakesAt(DeliveryTable, 7, v);
    TakesAt(DeliveryTable, 9, v);
  }

  /** The numbers outside `[delivery]`, with both ends of their ranges. */
  lemma NumberKeys(v: Value)
    ensures Takes(UiTable, "sidebar_width", v) <==> Between(v, 24, 60)
    ensures Takes(UiTable, "tree_keep_finished_secs", v) <==> Between(v, 0, 300)
    ensures Takes(PanesTable, "max", v) <==> Between(v, 1, 16)
    ensures Takes(GitTable, "poll_secs", v) <==> Between(v, 5, 3600)
    ensures Takes(GitTable, "debounce_ms", v) <==> Between(v, 50, 5000)
  {
    hide Takes;
    hide Between;
    TakesAt(UiTable, 0, v);
    TakesAt(UiTable, 1, v);
    TakesAt(PanesTable, 0, v);
    TakesAt(GitTable, 1, v);
    TakesAt(GitTable, 2, v);
    RangeIs(v, 24, 60);
    RangeIs(v, 0, 300);
    RangeIs(v, 1, 16);
    RangeIs(v, 5, 3600);
    RangeIs(v, 50, 5000);
    hide Accepts;
  }

  /** The numbers of `[delivery]`. */
  lemma DeliveryNumberKeys(v: Value)
    ensures Takes(DeliveryTable, "poll_secs", v) <==> Between(v, 1, 3600)
    ensures Takes(DeliveryTable, "poll_max_secs", v) <==> Between(v, 1, 3600)
    ensures Takes(DeliveryTable, "ci_log_max_bytes", v) <==> Between(v, 4096, 16_777_216)
    ensures Takes(DeliveryTable, "ci_fix_max", v) <==> Between(v, 0, 10)
    ensures Takes(DeliveryTable, "review_fix_max", v) <==> Between(v, 0, 10)
    ensures Takes(DeliveryTable, "review_batch_secs", v) <==> Between(v, 0, 3600)
  {
    hide Takes;
    hide Between;
    TakesAt(DeliveryTable, 0, v);
    TakesAt(DeliveryTable, 1, v);
    TakesAt(DeliveryTable, 2, v);
    TakesAt(DeliveryTable, 3, v);
    TakesAt(DeliveryTable, 4, v);
    TakesAt(DeliveryTable, 5, v);
    RangeIs(v, 1, 3600);
    RangeIs(v, 4096, 16_777_216);
    RangeIs(v, 0, 10);
    RangeIs(v, 0, 3600);
    hide Accepts;
  }

  /** `sync` is one of two words, `stage_target_lines` two numbers in order. */
  lemma ChoiceKeys(v: Value)
    ensures Takes(DeliveryTable, "sync", v) <==> v == Text("on_conflict") || v == Text("always")
    ensures Takes(DeliveryTable, "stage_target_lines", v) <==>
            exists l, h :: v == Array([Integer(l), Integer(h)]) && 50 <= l < h <= 5000
  {
    hide Takes;
    TakesAt(DeliveryTable, 8, v);
    TakesAt(DeliveryTable, 10, v);
    if IsPair(v, 50, 5000) {
      assert v.items == [Integer(v.items[0].n), Integer(v.items[1].n)];
    }
  }

  /** `scrollback_lines`, the one number at the top. */
  lemma Scrollback(table: Table)
    ensures ConfigOf(table).scrollbackLines ==
            if "scrollback_lines" in table && Between(table["scrollback_lines"], 0, 100_000)
            then table["scrollback_lines"].n else 5000
  {
    hide ReadBell;
    hide ReadUi;
    hide ReadGit;
    hide ReadDelivery;
    if "scrollback_lines" in table {
      RangeIs(table["scrollback_lines"], 0, 100_000);
    }
  }

  // ---- git.ignore ----

  /** An entry is refused exactly when it is no text, empty, longer than 64 characters, has
      a slash in it or stands for a directory itself. */
  lemma IgnoreEntryIff(v: Value)
    ensures !IsIgnoreEntry(v) <==>
            || !v.Text? || v.s == "" || |v.s| > 64
            || (exists a, b :: v.s == a + "/" + b)
            || v.s == "." || v.s == ".."
  {
    if v.Text? && '/' in v.s {
      var k :| 0 <= k < |v.s| && v.s[k] == '/';
      assert v.s == v.s[..k] + "/" + v.s[k + 1..];
    }
    if v.Text? && exists a, b :: v.s == a + "/" + b {
      var a, b :| v.s == a + "/" + b;
      assert v.s[|a|] == '/';
    }
  }

  lemma {:induction false} EntriesAppend(a: seq<Value>, b: seq<Value>)
    ensures Entries(a + b) == Entries(a) + Entries(b)
    ensures forall where :: EntryProblems(where, a + b) == EntryProblems(where, a) + EntryProblems(where, b)
    decreases |b|
  {
    hide IsIgnoreEntry;
    if b == [] {
      assert a + b == a;
    } else {
      assert (a + b)[..|a + b| - 1] == a + b[..|b| - 1];
      EntriesAppend(a, b[..|b| - 1]);
    }
  }

  /** Reading keeps the order: one entry after the other, each taken or reported for its own
      reason. */
  lemma EntriesOneByOne(a: seq<Value>, v: Value, b: seq<Value>, where: seq<string>)
    ensures Entries(a + [v] + b) == Entries(a) + (if IsIgnoreEntry(v) then [v.s] else []) + Entries(b)
    ensures EntryProblems(where, a + [v] + b) ==
            EntryProblems(where, a) +
            (if IsIgnoreEntry(v) then []
             else if v.Text? then [Problem(where, BadEntry)] else [Problem(where, NotAString)]) +
            EntryProblems(where, b)
  {
    EntriesAppend(a + [v], b);
    EntriesAppend(a, [v]);
    OneEntry(v, where);
    hide Entries;
    hide EntryProblems;
    hide IsIgnoreEntry;
  }

  lemma OneEntry(v: Value, where: seq<string>)
    ensures Entries([v]) == if IsIgnoreEntry(v) then [v.s] else []
    ensures EntryProblems(where, [v]) ==
            if IsIgnoreEntry(v) then []
            else if v.Text? then [Problem(where, BadEntry)] else [Problem(where, NotAString)]
  {
    hide IsIgnoreEntry;
    assert [v][..0] == [];
  }

  /** Reading goes on exactly while fewer than 32 entries are in. */
  lemma {:induction false} NotFullBefore(items: seq<Value>, j: nat)
    requires j < StopsAt(items)
    ensures |Entries(items[..j])| < 32
    decreases |items|
  {
    hide IsIgnoreEntry;
    var n := |items| - 1;
    if j < n {
      assert items[..n][..j] == items[..j];
      if j < StopsAt(items[..n]) {
        NotFullBefore(items[..n], j);
      }
    }
  }

  /** `git.ignore` is the first 32 of them; reading stops at the first item after those,
      which is reported once for itself and the rest. */
  lemma IgnoreIsFirst32(t: Table, d: seq<string>, where: seq<string>)
    requires "ignore" in t && t["ignore"].Array?
    ensures var all := Entries(t["ignore"].items);
            IgnoreOr(t, d) == all[..if |all| < 32 then |all| else 32]
    ensures var items := t["ignore"].items;
            var k := StopsAt(items);
            && (forall j | 0 <= j < k :: |Entries(items[..j])| < 32)
            && (k < |items| ==> |Entries(items[..k])| == 32)
            && IgnoreProblems(where, items) ==
               EntryProblems(where, items[..k]) + if k < |items| then [Problem(where, TooManyEntries)] else []
  {
    var items := t["ignore"].items;
    forall j | 0 <= j < StopsAt(items) ensures |Entries(items[..j])| < 32 {
      NotFullBefore(items, j);
    }
    StopsWhenFull(items);
    if StopsAt(items) == |items| {
      assert items[..|items|] == items;
    }
  }

  // ---- reviewers ----

  ghost predicate LoginText(t: string) {
    1 <= |t| <= 39 && forall k | 0 <= k < |t| ::
      t[k] in "abcdefghijklmnopqrstuvwxyz" || t[k] in "ABCDEFGHIJKLMNOPQRSTUVWXYZ" || '0' <= t[k] <= '9' || t[k] == '-'
  }

  lemma LoginCharacters(c: char)
    ensures IsLoginChar(c) <==>
            c in "abcdefghijklmnopqrstuvwxyz" || c in "ABCDEFGHIJKLMNOPQRSTUVWXYZ" || '0' <= c <= '9' || c == '-'
  {
    LowerCase(c);
    UpperCase(c);
  }

  lemma LoginTexts(t: string)
    ensures LoginText(t) <==> 1 <= |t| <= 39 && forall k | 0 <= k < |t| :: IsLoginChar(t[k])
  {
    forall k | 0 <= k < |t|
      ensures IsLoginChar(t[k]) <==>
              || t[k] in "abcdefghijklmnopqrstuvwxyz" || t[k] in "ABCDEFGHIJKLMNOPQRSTUVWXYZ"
              || '0' <= t[k] <= '9' || t[k] == '-'
    {
      LoginCharacters(t[k]);
    }
    hide IsLoginChar;
  }

  /** A login is 1 to 39 letters, digits and dashes, and a bot's the same with its suffix. */
  lemma LoginIff(t: string)
    ensures IsLogin(t + "[bot]") <==> LoginText(t)
    ensures (forall a :: t != a + "[bot]") ==> (IsLogin(t) <==> LoginText(t))
  {
    hide LoginText;
    hide IsLoginChar;
    LoginTexts(t);
    var bot := t + "[bot]";
    assert bot[|bot| - 5..] == "[bot]" && bot[..|bot| - 5] == t;
    if |t| >= 5 && t[|t| - 5..] == "[bot]" {
      assert t == t[..|t| - 5] + "[bot]";
    }
  }
}
