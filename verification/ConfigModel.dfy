/** What reading `config.toml` means, key by key: the tables `bell`, `ui`, `panes`, `git`
    and `delivery`, and two top-level keys, of crates/config/src/lib.rs, git.rs and
    delivery.rs. */
module ConfigModel {
  import opened Prelude

  /** A TOML value; `Other` is a float or a date. */
  datatype Value = Bool(b: bool) | Integer(n: int) | Text(s: string) | Array(items: seq<Value>) | Tab(t: Table) | Other

  type Table = map<string, Value>

  /** Why a key was not taken as written. */
  datatype Why =
    | InvalidToml | UnknownKey | SetInProfile | NotATable | NotABoolean | OutOfRange | Renamed
    | NotAnArray | NotAString | BadEntry | TooManyEntries
    | NotLogins | NotASyncPolicy | NotAPair

  /** The key's components, as in `git.poll_secs`. */
  datatype Problem = Problem(key: seq<string>, why: Why)

  datatype Sync = OnConflict | Always

  datatype Bell = Bell(attention: bool, done: bool)
  datatype Ui = Ui(sidebarWidth: Option<int>, treeKeepFinishedSecs: int)
  datatype Git = Git(enabled: bool, pollSecs: int, debounceMs: int, ignore: seq<string>)
  datatype Delivery = Delivery(
    pollSecs: int, pollMaxSecs: int, ciLogMaxBytes: int, ciFixMax: int, reviewFixMax: int, reviewBatchSecs: int,
    reviewers: seq<string>, replyToComments: bool, sync: Sync, deleteMergedBranches: bool,
    stageTargetLines: (int, int))
  datatype Config = Config(scrollbackLines: int, bell: Bell, ui: Ui, panesMax: int, git: Git, delivery: Delivery)

  // ---- What each key may hold ----

  predicate InRange(v: Value, lo: int, hi: int) {
    v.Integer? && lo <= v.n <= hi
  }

  function WithoutBot(text: string): string {
    if |text| >= 5 && text[|text| - 5..] == "[bot]" then text[..|text| - 5] else text
  }

  predicate IsLoginChar(c: char) {
    'a' <= c <= 'z' || 'A' <= c <= 'Z' || '0' <= c <= '9' || c == '-'
  }

  predicate IsLogin(text: string) {
    var name := WithoutBot(text);
    1 <= |name| <= 39 && forall k | 0 <= k < |name| :: IsLoginChar(name[k])
  }

  predicate AreLogins(v: Value) {
    v.Array? && forall k | 0 <= k < |v.items| :: v.items[k].Text? && IsLogin(v.items[k].s)
  }

  predicate IsSync(v: Value) {
    v == Text("on_conflict") || v == Text("always")
  }

  predicate IsPair(v: Value, lo: int, hi: int) {
    && v.Array? && |v.items| == 2
    && InRange(v.items[0], lo, hi) && InRange(v.items[1], lo, hi) && v.items[0].n < v.items[1].n
  }

  datatype Rule = Boolean | Range(lo: int, hi: int) | IgnoreList | Logins | SyncPolicy | Ascending(lo: int, hi: int)

  datatype Key = Key(name: string, rule: Rule)

  predicate Accepts(rule: Rule, v: Value) {
    match rule
    case Boolean => v.Bool?
    case Range(lo, hi) => InRange(v, lo, hi)
    case IgnoreList => v.Array? && |v.items| <= IGNORE_MAX && forall k | 0 <= k < |v.items| :: IsIgnoreEntry(v.items[k])
    case Logins => AreLogins(v)
    case SyncPolicy => IsSync(v)
    case Ascending(lo, hi) => IsPair(v, lo, hi)
  }

  function Reason(rule: Rule): Why {
    match rule
    case Boolean => NotABoolean
    case Range(_, _) => OutOfRange
    case IgnoreList => NotAnArray
    case Logins => NotLogins
    case SyncPolicy => NotASyncPolicy
    case Ascending(_, _) => NotAPair
  }

  datatype Section = BellTable | UiTable | PanesTable | GitTable | DeliveryTable

  function Name(s: Section): string {
    match s
    case BellTable => "bell"
    case UiTable => "ui"
    case PanesTable => "panes"
    case GitTable => "git"
    case DeliveryTable => "delivery"
  }

  /** The keys of a table in the order they are read. */
  function Schema(s: Section): seq<Key> {
    match s
    case BellTable => [Key("attention", Boolean), Key("done", Boolean)]
    case UiTable => [Key("sidebar_width", Range(24, 60)), Key("tree_keep_finished_secs", Range(0, 300))]
    case PanesTable => [Key("max", Range(1, 16))]
    case GitTable =>
      [Key("enabled", Boolean), Key("poll_secs", Range(5, 3600)), Key("debounce_ms", Range(50, 5000)),
       Key("ignore", IgnoreList)]
    case DeliveryTable =>
      [Key("poll_secs", Range(1, 3600)), Key("poll_max_secs", Range(1, 3600)),
       Key("ci_log_max_bytes", Range(4096, 16_777_216)), Key("ci_fix_max", Range(0, 10)),
       Key("review_fix_max", Range(0, 10)), Key("review_batch_secs", Range(0, 3600)), Key("reviewers", Logins),
       Key("reply_to_comments", Boolean), Key("sync", SyncPolicy), Key("delete_merged_branches", Boolean),
       Key("stage_target_lines", Ascending(50, 5000))]
  }

  // ---- git.ignore ----

  const IGNORE_MAX: nat := 32
  const IGNORE_CHARS: nat := 64

  /** A single path component of at most 64 characters. */
  predicate IsIgnoreEntry(v: Value) {
    && v.Text? && 1 <= |v.s| <= IGNORE_CHARS && '/' !in v.s
    && v.s != "." && v.s != ".."
  }

  function Entries(items: seq<Value>): seq<string> {
    if items == [] then []
    else
      var n := |items| - 1;
      Entries(items[..n]) + if IsIgnoreEntry(items[n]) then [items[n].s] else []
  }

  function First<T>(xs: seq<T>, n: nat): seq<T> {
    if |xs| <= n then xs else xs[..n]
  }

  /** Where reading stops: at the first item after 32 accepted ones, or at the end. */
  function StopsAt(items: seq<Value>): (k: nat)
    ensures k <= |items|
  {
    if items == [] then 0
    else
      var n := |items| - 1;
      var k := StopsAt(items[..n]);
      if k < n || |Entries(items[..n])| >= IGNORE_MAX then k else n + 1
  }

  function EntryProblems(where: seq<string>, items: seq<Value>): seq<Problem> {
    if items == [] then []
    else
      var n := |items| - 1;
      EntryProblems(where, items[..n]) +
      if IsIgnoreEntry(items[n]) then []
      else [Problem(where, if items[n].Text? then BadEntry else NotAString)]
  }

  /** One problem per refused entry read, and one for the rest if reading stopped early. */
  function IgnoreProblems(where: seq<string>, items: seq<Value>): seq<Problem> {
    var k := StopsAt(items);
    EntryProblems(where, items[..k]) + if k < |items| then [Problem(where, TooManyEntries)] else []
  }

  // ---- What reading a key gives ----

  function BoolOr(t: Table, k: string, default: bool): bool {
    if k in t && t[k].Bool? then t[k].b else default
  }

  function IntOr(t: Table, k: string, lo: int, hi: int, default: int): int {
    if k in t && InRange(t[k], lo, hi) then t[k].n else default
  }

  function WidthOr(t: Table, default: Option<int>): Option<int> {
    if "sidebar_width" in t && InRange(t["sidebar_width"], 24, 60) then Some(t["sidebar_width"].n) else default
  }

  function IgnoreOr(t: Table, default: seq<string>): seq<string> {
    if "ignore" in t && t["ignore"].Array? then First(Entries(t["ignore"].items), IGNORE_MAX) else default
  }

  function LoginsOf(items: seq<Value>): seq<string>
    requires AreLogins(Array(items))
  {
    seq(|items|, k requires 0 <= k < |items| => Array(items).items[k].s)
  }

  function ReviewersOr(t: Table, default: seq<string>): seq<string> {
    if "reviewers" in t && AreLogins(t["reviewers"]) then LoginsOf(t["reviewers"].items) else default
  }

  function SyncOr(t: Table, default: Sync): Sync {
    if "sync" in t && IsSync(t["sync"]) then if t["sync"].s == "always" then Always else OnConflict else default
  }

  function PairOr(t: Table, k: string, lo: int, hi: int, default: (int, int)): (int, int) {
    if k in t && IsPair(t[k], lo, hi) then (t[k].items[0].n, t[k].items[1].n) else default
  }

  /** Each field is its own key's accepted value or what it was: no other key is read. */
  function ReadBell(t: Table, d: Bell): Bell {
    Bell(BoolOr(t, "attention", d.attention), BoolOr(t, "done", d.done))
  }

  function ReadUi(t: Table, d: Ui): Ui {
    Ui(WidthOr(t, d.sidebarWidth), IntOr(t, "tree_keep_finished_secs", 0, 300, d.treeKeepFinishedSecs))
  }

  function ReadGit(t: Table, d: Git): Git {
    Git(BoolOr(t, "enabled", d.enabled), IntOr(t, "poll_secs", 5, 3600, d.pollSecs),
        IntOr(t, "debounce_ms", 50, 5000, d.debounceMs), IgnoreOr(t, d.ignore))
  }

  function ReadDelivery(t: Table, d: Delivery): Delivery {
    Delivery(
      IntOr(t, "poll_secs", 1, 3600, d.pollSecs),
      IntOr(t, "poll_max_secs", 1, 3600, d.pollMaxSecs),
      IntOr(t, "ci_log_max_bytes", 4096, 16_777_216, d.ciLogMaxBytes),
      IntOr(t, "ci_fix_max", 0, 10, d.ciFixMax),
      IntOr(t, "review_fix_max", 0, 10, d.reviewFixMax),
      IntOr(t, "review_batch_secs", 0, 3600, d.reviewBatchSecs),
      ReviewersOr(t, d.reviewers),
      BoolOr(t, "reply_to_comments", d.replyToComments),
      SyncOr(t, d.sync),
      BoolOr(t, "delete_merged_branches", d.deleteMergedBranches),
      PairOr(t, "stage_target_lines", 50, 5000, d.stageTargetLines))
  }

  // ---- The problems ----

  /** The problems of one known key. */
  function KeyProblems(section: string, k: Key, t: Table): seq<Problem> {
    if k.name !in t || Accepts(k.rule, t[k.name]) then []
    else if k.rule.IgnoreList? && t[k.name].Array? then IgnoreProblems([section, k.name], t[k.name].items)
    else [Problem([section, k.name], Reason(k.rule))]
  }

  function SchemaProblems(section: string, keys: seq<Key>, t: Table): seq<Problem> {
    if keys == [] then []
    else SchemaProblems(section, keys[..|keys| - 1], t) + KeyProblems(section, keys[|keys| - 1], t)
  }

  /** One more key read: its problems follow those of the keys before it. */
  lemma NextKey(section: string, keys: seq<Key>, i: nat, t: Table,
                base: seq<Problem>, before: seq<Problem>, after: seq<Problem>)
    requires i < |keys|
    requires before == base + SchemaProblems(section, keys[..i], t)
    requires after == before + KeyProblems(section, keys[i], t)
    ensures after == base + SchemaProblems(section, keys[..i + 1], t)
  {
    hide KeyProblems;
    assert keys[..i + 1][..i] == keys[..i];
  }

  /** Some problem names the key. */
  ghost predicate Named(ps: seq<Problem>, key: seq<string>) {
    exists i :: 0 <= i < |ps| && ps[i].key == key
  }

  lemma NamedAppend(a: seq<Problem>, b: seq<Problem>, key: seq<string>)
    ensures Named(a + b, key) <==> Named(a, key) || Named(b, key)
  {
    if i :| 0 <= i < |a| && a[i].key == key {
      assert (a + b)[i].key == key;
    }
    if i :| 0 <= i < |b| && b[i].key == key {
      assert (a + b)[|a| + i].key == key;
    }
  }

  /** How often a problem is reported. */
  function Times(ps: seq<Problem>, p: Problem): nat {
    multiset(ps)[p]
  }

  lemma TimesAppend(a: seq<Problem>, b: seq<Problem>, p: Problem)
    ensures Times(a + b, p) == Times(a, p) + Times(b, p)
  {
  }

  lemma TimesOne(q: Problem, p: Problem)
    ensures Times([], p) == 0 && Times([q], p) == if p == q then 1 else 0
  {
  }

  lemma NamedIsTimes(ps: seq<Problem>, key: seq<string>)
    ensures Named(ps, key) <==> exists p: Problem :: p.key == key && Times(ps, p) > 0
  {
    if i :| 0 <= i < |ps| && ps[i].key == key {
      assert ps[i] in multiset(ps) && Times(ps, ps[i]) > 0;
    }
    if p: Problem :| p.key == key && Times(ps, p) > 0 {
      assert p in multiset(ps);
      var i :| 0 <= i < |ps| && ps[i] == p;
    }
  }

  // ---- The ignore list is its first 32 good entries ----

  lemma {:induction false} EntriesUpTo(items: seq<Value>, k: nat)
    requires k <= |items|
    ensures |Entries(items[..k])| <= |Entries(items)|
    ensures Entries(items)[..|Entries(items[..k])|] == Entries(items[..k])
    decreases |items|
  {
    if k == |items| {
      assert items[..k] == items;
    } else {
      var n := |items| - 1;
      EntriesUpTo(items[..n], k);
      assert items[..n][..k] == items[..k];
    }
  }

  /** Reading stops as soon as 32 entries are in and another item follows. */
  lemma {:induction false} StopsWhenFull(items: seq<Value>)
    ensures StopsAt(items) < |items| ==> |Entries(items[..StopsAt(items)])| == IGNORE_MAX
    ensures StopsAt(items) == |items| ==> |Entries(items)| <= IGNORE_MAX
    decreases |items|
  {
    if items != [] {
      var n := |items| - 1;
      StopsWhenFull(items[..n]);
      var k := StopsAt(items[..n]);
      assert items[..n][..k] == items[..k];
    }
  }

  lemma StoppedEntries(items: seq<Value>)
    ensures Entries(items[..StopsAt(items)]) == First(Entries(items), IGNORE_MAX)
  {
    StopsWhenFull(items);
    EntriesUpTo(items, StopsAt(items));
    if StopsAt(items) == |items| {
      assert items[..StopsAt(items)] == items;
    }
  }

  lemma {:induction false} CleanEntries(where: seq<string>, items: seq<Value>)
    ensures EntryProblems(where, items) == [] <==> forall k | 0 <= k < |items| :: IsIgnoreEntry(items[k])
    ensures EntryProblems(where, items) == [] ==> |Entries(items)| == |items|
    ensures forall i | 0 <= i < |EntryProblems(where, items)| :: EntryProblems(where, items)[i].key == where
    decreases |items|
  {
    if items != [] {
      CleanEntries(where, items[..|items| - 1]);
      assert items == items[..|items| - 1] + [items[|items| - 1]];
    }
  }

  /** The list has no problem exactly when it is accepted. */
  lemma IgnoreClean(where: seq<string>, items: seq<Value>)
    ensures Accepts(IgnoreList, Array(items)) <==> IgnoreProblems(where, items) == []
  {
    hide IsIgnoreEntry;
    var k := StopsAt(items);
    CleanEntries(where, items[..k]);
    StopsWhenFull(items);
    if k == |items| {
      assert items[..k] == items;
    }
  }

  lemma IgnoreProblemsAreWhere(where: seq<string>, items: seq<Value>)
    ensures forall i | 0 <= i < |IgnoreProblems(where, items)| :: IgnoreProblems(where, items)[i].key == where
  {
    CleanEntries(where, items[..StopsAt(items)]);
    hide EntryProblems;
    hide IsIgnoreEntry;
  }

  lemma IgnoreAccounts(where: seq<string>, items: seq<Value>, key: seq<string>)
    ensures Named(IgnoreProblems(where, items), key) <==> key == where && !Accepts(IgnoreList, Array(items))
    ensures Accepts(IgnoreList, Array(items)) <==> IgnoreProblems(where, items) == []
  {
    hide Accepts;
    hide IgnoreProblems;
    IgnoreClean(where, items);
    IgnoreProblemsAreWhere(where, items);
    var ps := IgnoreProblems(where, items);
    if ps != [] {
      assert ps[0].key == where;
    }
  }

  lemma KeyAccounts(section: string, k: Key, t: Table, key: seq<string>)
    ensures Named(KeyProblems(section, k, t), key) <==>
            key == [section, k.name] && k.name in t && !Accepts(k.rule, t[k.name])
  {
    var ps := KeyProblems(section, k, t);
    if k.name in t && k.rule.IgnoreList? && t[k.name].Array? {
      IgnoreAccounts([section, k.name], t[k.name].items, key);
    } else if ps != [] {
      assert ps[0].key == [section, k.name];
    }
  }

  /** Reading a table names exactly the known keys whose values they may not have. */
  lemma {:induction false} SchemaAccounts(section: string, keys: seq<Key>, t: Table, key: seq<string>)
    ensures Named(SchemaProblems(section, keys, t), key) <==>
            exists j :: 0 <= j < |keys| && key == [section, keys[j].name] && keys[j].name in t
                        && !Accepts(keys[j].rule, t[keys[j].name])
    decreases |keys|
  {
    hide Named;
    hide Accepts;
    hide KeyProblems;
    if keys == [] {
      NothingNamed(key);
    } else {
      var n := |keys| - 1;
      SchemaAccounts(section, keys[..n], t, key);
      KeyAccounts(section, keys[n], t, key);
      NamedAppend(SchemaProblems(section, keys[..n], t), KeyProblems(section, keys[n], t), key);
    }
  }

  lemma NothingNamed(key: seq<string>)
    ensures !Named([], key)
  {
  }
}
