/** The names problems are printed under: a key's components joined by dots, as
    crates/config/src/lib.rs builds them, and which keys can share one. */
module ConfigNames {
  import opened ConfigModel
  import opened ConfigReader

  /** The key as `Problem.key` spells it. */
  function Dotted(key: seq<string>): string {
    if key == [] then []
    else if |key| == 1 then key[0]
    else Dotted(key[..|key| - 1]) + "." + key[|key| - 1]
  }

  /** Some problem is printed under this name. */
  ghost predicate NamedAs(ps: seq<Problem>, name: string) {
    exists i :: 0 <= i < |ps| && Dotted(ps[i].key) == name
  }

  lemma DottedOne(k: string)
    ensures Dotted([k]) == k
  {
  }

  lemma DottedTwo(x: string, y: string)
    ensures Dotted([x, y]) == x + "." + y
  {
    assert [x, y][..1] == [x];
  }

  /** How many characters come before the first dot. */
  function BeforeDot(name: string): nat {
    if name == [] || name[0] == '.' then 0 else 1 + BeforeDot(name[1..])
  }

  lemma {:induction false} BeforeDotIs(x: string, y: string)
    requires '.' !in x
    ensures BeforeDot(x + "." + y) == |x|
    decreases |x|
  {
    if x == [] {
      assert x + "." + y == "." + y;
    } else {
      assert x[0] in x;
      assert (x + "." + y)[1..] == x[1..] + "." + y;
      BeforeDotIs(x[1..], y);
    }
  }

  /** A name is cut at its first dot in one way. */
  lemma FirstDot(x: string, y: string, u: string, v: string)
    requires '.' !in x && '.' !in u && x + "." + y == u + "." + v
    ensures x == u && y == v
  {
    BeforeDotIs(x, y);
    BeforeDotIs(u, v);
    hide BeforeDot;
    var name := x + "." + y;
    assert name == u + "." + v;
    assert name[..|x|] == x && name[..|u|] == u && name[|x| + 1..] == y && name[|u| + 1..] == v;
  }

  lemma SectionsHaveNoDot(s: Section)
    ensures '.' !in Name(s)
  {
  }

  lemma KnownHaveNoDot(k: string)
    requires '.' in k
    ensures !IsSection(k) && k !in ELSEWHERE && k != SCROLLBACK && k != LEGACY_WIDTH
  {
    assert forall e | e in ELSEWHERE :: '.' !in e;
    forall j | 0 <= j < |READ_ORDER| ensures Name(READ_ORDER[j]) != k {
      SectionsHaveNoDot(READ_ORDER[j]);
    }
  }

  /** A reported key is a top-level one or one of a modelled table. */
  lemma ReportedShape(table: Table, key: seq<string>)
    requires Reported(table, key)
    ensures |key| == 1 || (|key| == 2 && exists s: Section :: key[0] == Name(s))
  {
    hide Schema;
    hide Accepts;
    if j :| 0 <= j < |READ_ORDER| && SectionRefuses(table, READ_ORDER[j], key) {
      assert key[0] == Name(READ_ORDER[j]);
    } else if Unread(table, key) && IsSection(key[0]) {
      assert key[0] == Name(SectionOf(key[0]));
    }
  }

  /** A top-level key with a dot in it is never known, so it is reported when present. */
  lemma DottedTopKey(table: Table, k: string)
    requires '.' in k
    ensures Reported(table, [k]) <==> k in table
  {
    KnownHaveNoDot(k);
    forall j | 0 <= j < |READ_ORDER| ensures !SectionRefuses(table, READ_ORDER[j], [k]) {
      SectionsHaveNoDot(READ_ORDER[j]);
    }
  }

  /** Two reported keys share a printed name only if one of them is a top-level key with a
      dot in it. */
  lemma SharedNames(table: Table, a: seq<string>, b: seq<string>)
    requires Reported(table, a) && Reported(table, b) && Dotted(a) == Dotted(b) && a != b
    ensures (|a| == 1 && '.' in a[0]) || (|b| == 1 && '.' in b[0])
  {
    hide Reported;
    ReportedShape(table, a);
    ReportedShape(table, b);
    if |a| == 2 && |b| == 2 {
      assert a == [a[0], a[1]] && b == [b[0], b[1]];
      DottedTwo(a[0], a[1]);
      DottedTwo(b[0], b[1]);
      var s: Section :| a[0] == Name(s);
      var u: Section :| b[0] == Name(u);
      SectionsHaveNoDot(s);
      SectionsHaveNoDot(u);
      FirstDot(a[0], a[1], b[0], b[1]);
    } else {
      DotShows(a);
      DotShows(b);
    }
  }

  lemma DotShows(key: seq<string>)
    requires 1 <= |key| <= 2
    ensures |key| == 1 ==> key == [key[0]] && Dotted(key) == key[0]
    ensures |key| == 2 ==> '.' in Dotted(key)
  {
    if |key| == 2 {
      assert key == [key[0], key[1]];
      DottedTwo(key[0], key[1]);
      assert Dotted(key)[|key[0]|] == '.';
    }
  }

  /** A name `table.key` is printed exactly when that key is reported or the same text,
      quoted, is a top-level key: so a valid key's name is printed only because of such a
      key. */
  lemma PrintedExactlyWhen(table: Table, ps: seq<Problem>, s: Section, k: string)
    requires forall key :: Named(ps, key) <==> Reported(table, key)
    ensures NamedAs(ps, Name(s) + "." + k) <==> Reported(table, [Name(s), k]) || Name(s) + "." + k in table
  {
    hide Reported;
    var name := Name(s) + "." + k;
    assert name[|Name(s)|] == '.';
    DottedTopKey(table, name);
    DottedTwo(Name(s), k);
    if i :| 0 <= i < |ps| && Dotted(ps[i].key) == name {
      var key := ps[i].key;
      assert Named(ps, key);
      ReportedShape(table, key);
      DotShows(key);
      if |key| == 2 {
        assert key == [key[0], key[1]];
        DottedTwo(key[0], key[1]);
        var u: Section :| key[0] == Name(u);
        SectionsHaveNoDot(u);
        SectionsHaveNoDot(s);
        FirstDot(key[0], key[1], Name(s), k);
      }
    }
    if Reported(table, [Name(s), k]) {
      assert Named(ps, [Name(s), k]);
    }
    if name in table {
      assert Named(ps, [name]);
      DottedOne(name);
    }
  }

  /** The input: `poll_secs` of `[git]` is valid and a quoted top-level `"git.poll_secs"`
      is not known, and the problem is printed under the valid key's name. */
  lemma ValidKeyPrinted(ps: seq<Problem>)
    requires var table := map["git" := Tab(map["poll_secs" := Integer(10)]), "git.poll_secs" := Integer(10)];
             forall key :: Named(ps, key) <==> Reported(table, key)
    ensures !Named(ps, ["git", "poll_secs"]) && NamedAs(ps, "git.poll_secs")
  {
    var table := map["git" := Tab(map["poll_secs" := Integer(10)]), "git.poll_secs" := Integer(10)];
    EveryKeyIsAccounted(table, GitTable, "poll_secs");
    assert Schema(GitTable)[1] == Key("poll_secs", Range(5, 3600));
    assert "git" + "." + "poll_secs" == "git.poll_secs";
    hide Reported;
    PrintedExactlyWhen(table, ps, GitTable, "poll_secs");
  }
}
