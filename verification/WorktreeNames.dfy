/** Worktree directories of crates/common/src/worktree_names.rs and task directories of
    scripts/smoke_task_tmp.py: which inputs can share a name. */
module WorktreeNames {
  import opened Prelude
  import opened Fnv

  // ---- Repository directories ----

  /** `hash8` over the raw bytes of a path. */
  method Hash8(path: seq<Byte>) returns (text: string)
    ensures text == Hex8(Hash32(OFFSET32, path))
  {
    hide Step32;
    hide Hex8;
    var hash := OFFSET32;
    for i := 0 to |path|
      invariant hash == Hash32(OFFSET32, path[..i])
    {
      hash := Step32(hash, path[i]);
      assert path[..i + 1][..i] == path[..i];
    }
    assert path[..|path|] == path;
    text := Hex8(hash);
  }

  /** The published test vectors of FNV-1a, which `hash8` is held to. */
  lemma Hash8Vectors()
    ensures Hex8(Hash32(OFFSET32, [])) == "811c9dc5"
    ensures Hex8(Hash32(OFFSET32, [97])) == "e40c292c"
  {
    var a := [97 as Byte];
    assert a[..0] == [];
    assert Hash32(OFFSET32, a) == Step32(OFFSET32, 97);
    assert Step32(OFFSET32, 97) == 0xe40c_292c;
  }

  lemma NextByte(bytes: seq<Byte>, before: bv32, b: Byte, after: bv32) returns (longer: seq<Byte>)
    requires Hash32(OFFSET32, bytes) == before && Step32(before, b) == after
    ensures longer == bytes + [b] && Hash32(OFFSET32, longer) == after
  {
    longer := bytes + [b];
    assert longer[..|bytes|] == bytes;
  }

  /** And of `/tmp/repo`, byte by byte. */
  lemma Hash8OfTmpRepo()
    ensures Hex8(Hash32(OFFSET32, [47, 116, 109, 112, 47, 114, 101, 112, 111])) == "a3cbe2c8"
  {
    hide Hash32;
    NoBytes();
    var s: seq<Byte> := [];
    s := NextByte(s, 0x811c_9dc5, 47, 0x2a0c_975e);
    s := NextByte(s, 0x2a0c_975e, 116, 0x5bd1_f71e);
    s := NextByte(s, 0x5bd1_f71e, 109, 0xfe88_8a09);
    s := NextByte(s, 0xfe88_8a09, 112, 0x29f1_fc7b);
    s := NextByte(s, 0x29f1_fc7b, 47, 0x5bf0_383c);
    s := NextByte(s, 0x5bf0_383c, 114, 0x0928_a2ca);
    s := NextByte(s, 0x0928_a2ca, 101, 0x19f8_197d);
    s := NextByte(s, 0x19f8_197d, 112, 0xee8f_6f77);
    s := NextByte(s, 0xee8f_6f77, 111, 0xa3cb_e2c8);
    assert s == [47, 116, 109, 112, 47, 114, 101, 112, 111];
  }

  lemma NoBytes()
    ensures Hash32(OFFSET32, []) == OFFSET32
  {
  }

  predicate IsPlain(c: char) {
    'a' <= c <= 'z' || 'A' <= c <= 'Z' || '0' <= c <= '9' || c == '.' || c == '_' || c == '-'
  }

  function Sanitized(name: string): (r: string)
    ensures |r| == |name|
    ensures forall k | 0 <= k < |r| :: IsPlain(r[k])
  {
    seq(|name|, k requires 0 <= k < |name| => if IsPlain(name[k]) then name[k] else '-')
  }

  /** The plain characters, one by one. */
  lemma PlainCharacters(c: char)
    ensures IsPlain(c) <==>
            c in "abcdefghijklmnopqrstuvwxyz" || c in "ABCDEFGHIJKLMNOPQRSTUVWXYZ" || c in "0123456789" || c in "._-"
  {
    LowerCase(c);
    UpperCase(c);
    PlainOther(c);
  }

  lemma PlainOther(c: char)
    ensures c in "0123456789" <==> '0' <= c <= '9'
    ensures c in "._-" <==> c == '.' || c == '_' || c == '-'
  {
    if '0' <= c <= '9' {
      assert "0123456789"[c as int - '0' as int] == c;
    }
    assert "._-"[0] == '.' && "._-"[1] == '_' && "._-"[2] == '-';
  }

  /** A plain name stays as it is, and every other character alone becomes a dash. */
  lemma SanitizedLaws(a: string, c: char, b: string)
    ensures (forall k | 0 <= k < |a| :: IsPlain(a[k])) ==> Sanitized(a) == a
    ensures !IsPlain(c) ==> Sanitized(a + [c] + b) == Sanitized(a) + "-" + Sanitized(b)
    ensures IsPlain(c) ==> Sanitized(a + [c] + b) == Sanitized(a) + [c] + Sanitized(b)
  {
    hide IsPlain;
  }

  /** A character that is written as a dash. */
  predicate IsDashed(c: char) {
    !IsPlain(c) || c == '-'
  }

  /** Two names are made plain alike exactly when they differ only at characters that are
      both written as a dash. */
  lemma SanitizedAlike(a: string, b: string)
    ensures Sanitized(a) == Sanitized(b) <==>
            |a| == |b| && forall k | 0 <= k < |a| :: a[k] == b[k] || (IsDashed(a[k]) && IsDashed(b[k]))
  {
    if Sanitized(a) == Sanitized(b) {
      forall k | 0 <= k < |a| ensures a[k] == b[k] || (IsDashed(a[k]) && IsDashed(b[k])) {
        assert Sanitized(a)[k] == Sanitized(b)[k];
      }
    }
  }

  /** The last component of `repo_worktrees_dir`: the project root's last component, made
      plain, and the hash of the whole root. */
  function RepoDir(basename: string, root: seq<Byte>): string {
    Sanitized(basename) + "-" + Hex8(Hash32(OFFSET32, root))
  }

  /** Two roots share a directory name only if their hashes agree, whatever their last
      components are. */
  lemma SameDirSameHash(name: string, root: seq<Byte>, name2: string, root2: seq<Byte>)
    requires RepoDir(name, root) == RepoDir(name2, root2)
    ensures Hash32(OFFSET32, root) == Hash32(OFFSET32, root2)
    ensures Sanitized(name) == Sanitized(name2)
  {
    hide Hex8;
    hide Hash32;
    var a, b := RepoDir(name, root), RepoDir(name2, root2);
    var x, y := Hex8(Hash32(OFFSET32, root)), Hex8(Hash32(OFFSET32, root2));
    assert |x| == 8 && |y| == 8;
    assert |a| == |name| + 9 && |b| == |name2| + 9;
    assert a[|name| + 1..] == x && b[|name| + 1..] == y;
    assert a[..|name|] == Sanitized(name) && b[..|name|] == Sanitized(name2);
    HexSeparates(Hash32(OFFSET32, root), Hash32(OFFSET32, root2));
  }

  /** Two roots share a directory exactly when their hashes agree and their last components
      differ only where both are written as a dash. */
  lemma DirsSharedIff(name: string, root: seq<Byte>, name2: string, root2: seq<Byte>)
    ensures RepoDir(name, root) == RepoDir(name2, root2) <==>
            && Hash32(OFFSET32, root) == Hash32(OFFSET32, root2)
            && |name| == |name2|
            && forall k | 0 <= k < |name| :: name[k] == name2[k] || (IsDashed(name[k]) && IsDashed(name2[k]))
  {
    hide Hash32;
    hide Hex8;
    hide IsDashed;
    hide Sanitized;
    SanitizedAlike(name, name2);
    if RepoDir(name, root) == RepoDir(name2, root2) {
      SameDirSameHash(name, root, name2, root2);
    }
  }

  /** The directory is the name made plain, a dash, and the eight digits of `hash8`. */
  lemma DirReadsBack(name: string, root: seq<Byte>)
    ensures var d := RepoDir(name, root);
            && |d| == |name| + 9 && d[..|name|] == Sanitized(name) && d[|name|] == '-'
            && d[|name| + 1..] == Hex8(Hash32(OFFSET32, root))
  {
    hide Hash32;
    hide Hex8;
  }

  /** The repository's own example. */
  lemma MyRepo(root: seq<Byte>)
    ensures RepoDir("my repo", root)[..8] == "my-repo-"
  {
    hide Hash32;
    hide Hex8;
    assert Sanitized("my repo") == "my-repo";
  }

  /** Project roots that differ in one byte never share a worktrees directory. */
  lemma RootsOneByteApart(name: string, root: seq<Byte>, name2: string, root2: seq<Byte>, k: nat)
    requires OneByteApart(root, root2, k)
    ensures RepoDir(name, root) != RepoDir(name2, root2)
  {
    hide Hash32;
    hide RepoDir;
    OneByteChangesHash32(OFFSET32, root, root2, k);
    if RepoDir(name, root) == RepoDir(name2, root2) {
      SameDirSameHash(name, root, name2, root2);
    }
  }

  /** `branch_dir_name` */
  function BranchDir(branch: string): (r: string)
    ensures |r| == |branch| && '/' !in r
  {
    seq(|branch|, k requires 0 <= k < |branch| => if branch[k] == '/' then '-' else branch[k])
  }

  predicate IsJoint(c: char) {
    c == '/' || c == '-'
  }

  /** Two branches get one directory exactly when they differ only in `/` against `-`. */
  lemma BranchesShareDir(a: string, b: string)
    ensures BranchDir(a) == BranchDir(b) <==>
            |a| == |b| && forall k | 0 <= k < |a| ::
              a[k] == b[k] || (IsJoint(a[k]) && IsJoint(b[k]))
  {
    if BranchDir(a) == BranchDir(b) {
      assert |a| == |BranchDir(a)| == |BranchDir(b)| == |b|;
      forall k | 0 <= k < |a| ensures a[k] == b[k] || (IsJoint(a[k]) && IsJoint(b[k])) {
        assert BranchDir(a)[k] == BranchDir(b)[k];
      }
    }
  }

  /** A branch without a slash is its own directory, and each slash becomes a dash. */
  lemma BranchDirLaws(a: string, b: string)
    ensures '/' !in a ==> BranchDir(a) == a
    ensures BranchDir(a + "/" + b) == BranchDir(a) + "-" + BranchDir(b)
  {
  }

  /** `worktree_dir` below the worktrees root, as its two components. */
  function WorktreeDir(basename: string, root: seq<Byte>, branch: string): (string, string) {
    (RepoDir(basename, root), BranchDir(branch))
  }

  /** Two checkouts share a directory exactly when their roots' directories are the same and
      their branches differ only in `/` against `-`. */
  lemma CheckoutsSharedIff(name: string, root: seq<Byte>, branch: string,
                           name2: string, root2: seq<Byte>, branch2: string)
    ensures WorktreeDir(name, root, branch) == WorktreeDir(name2, root2, branch2) <==>
            && RepoDir(name, root) == RepoDir(name2, root2)
            && |branch| == |branch2|
            && forall k | 0 <= k < |branch| ::
                 branch[k] == branch2[k] || (branch[k] in {'/', '-'} && branch2[k] in {'/', '-'})
    ensures '/' !in WorktreeDir(name, root, branch).1
  {
    hide RepoDir;
    BranchesShareDir(branch, branch2);
  }

  /** Roots one byte apart never share a checkout, whatever the branches. */
  lemma CheckoutsOneByteApart(name: string, root: seq<Byte>, branch: string,
                              name2: string, root2: seq<Byte>, branch2: string, k: nat)
    requires OneByteApart(root, root2, k)
    ensures WorktreeDir(name, root, branch) != WorktreeDir(name2, root2, branch2)
  {
    RootsOneByteApart(name, root, name2, root2, k);
  }

  // ---- Task directories ----

  const SLASH: Byte := 47
  const DOT: Byte := 46

  predicate IsPart(c: seq<Byte>) {
    c != [] && c != [DOT]
  }

  function LastPart(path: seq<Byte>): seq<Byte> {
    if path == [] || path[|path| - 1] == SLASH then []
    else LastPart(path[..|path| - 1]) + [path[|path| - 1]]
  }

  function EndedParts(path: seq<Byte>): seq<seq<Byte>>
    decreases |path|, 0
  {
    if path == [] then []
    else
      var n := |path| - 1;
      if path[n] == SLASH then Parts(path[..n]) else EndedParts(path[..n])
  }

  /** The parts between slashes, empty and `.` ones dropped. */
  function Parts(path: seq<Byte>): seq<seq<Byte>>
    decreases |path|, 1
  {
    if IsPart(LastPart(path)) then EndedParts(path) + [LastPart(path)] else EndedParts(path)
  }

  /** `_components`: the root and the parts of an absolute path, an error for any other. */
  function Components(path: seq<Byte>): Option<seq<seq<Byte>>> {
    if path == [] || path[0] != SLASH then None else Some([[SLASH]] + Parts(path))
  }

  /** The plain spelling of an absolute path with these parts. */
  function Spelled(parts: seq<seq<Byte>>): seq<Byte> {
    if parts == [] then [SLASH]
    else if |parts| == 1 then [SLASH] + parts[0]
    else Spelled(parts[..|parts| - 1]) + [SLASH] + parts[|parts| - 1]
  }

  ghost predicate Proper(parts: seq<seq<Byte>>) {
    forall k | 0 <= k < |parts| :: IsPart(parts[k]) && SLASH !in parts[k]
  }

  lemma {:induction false} LastPartExtends(path: seq<Byte>, c: seq<Byte>)
    requires SLASH !in c
    ensures LastPart(path + c) == LastPart(path) + c
    ensures EndedParts(path + c) == EndedParts(path)
    decreases |c|
  {
    if c == [] {
      assert path + c == path;
    } else {
      assert (path + c)[..|path + c| - 1] == path + c[..|c| - 1];
      LastPartExtends(path, c[..|c| - 1]);
    }
  }

  lemma OneMorePart(path: seq<Byte>, c: seq<Byte>)
    requires SLASH !in c && IsPart(c)
    ensures Parts(path + [SLASH] + c) == Parts(path) + [c]
  {
    var p := path + [SLASH];
    assert p[..|path|] == path;
    LastPartExtends(p, c);
    assert [] + c == c;
  }

  lemma NoParts()
    ensures Parts([]) == [] && Parts([SLASH]) == []
  {
    assert [SLASH][..0] == [];
  }

  /** Every list of proper parts is the components of its plain spelling. */
  lemma {:induction false} PlainSpelling(parts: seq<seq<Byte>>)
    requires Proper(parts)
    ensures Components(Spelled(parts)) == Some([[SLASH]] + parts)
    decreases |parts|
  {
    hide Parts;
    hide IsPart;
    var n := |parts| - 1;
    NoParts();
    if n == 0 {
      OneMorePart([], parts[0]);
      assert [] + [SLASH] + parts[0] == Spelled(parts);
      assert [] + [parts[0]] == parts;
    } else if n > 0 {
      PlainSpelling(parts[..n]);
      assert Spelled(parts) == Spelled(parts[..n]) + [SLASH] + parts[n];
      OneMorePart(Spelled(parts[..n]), parts[n]);
      assert ([[SLASH]] + Parts(Spelled(parts[..n])))[1..] == Parts(Spelled(parts[..n]));
      assert ([[SLASH]] + parts[..n])[1..] == parts[..n];
      assert parts[..n] + [parts[n]] == parts;
    }
  }

  lemma {:induction false} PartsAreProper(path: seq<Byte>)
    ensures Proper(Parts(path)) && Proper(EndedParts(path)) && SLASH !in LastPart(path)
    decreases |path|
  {
    if path != [] {
      PartsAreProper(path[..|path| - 1]);
    }
  }

  /** One more part is one more component, an empty one and `.` are none; `..` is. */
  lemma ComponentsGrow(path: seq<Byte>, c: seq<Byte>)
    requires Components(path).Some? && 47 !in c
    ensures Components([47]) == Some([[47]])
    ensures Components(path + [47] + c) ==
            if c == [] || c == [46] then Components(path) else Some(Components(path).value + [c])
  {
    hide Parts;
    NoParts();
    assert (path + [SLASH] + c)[0] == path[0];
    assert [[SLASH]] + [] == [[SLASH]];
    assert [[SLASH]] + Parts(path) + [c] == [[SLASH]] + (Parts(path) + [c]);
    if c == [] || c == [DOT] {
      NoMorePart(path, c);
    } else {
      OneMorePart(path, c);
    }
  }

  lemma NoMorePart(path: seq<Byte>, c: seq<Byte>)
    requires c == [] || c == [DOT]
    ensures Parts(path + [SLASH] + c) == Parts(path)
  {
    var p := path + [SLASH];
    assert p[..|path|] == path;
    LastPartExtends(p, c);
    assert [] + c == c;
  }

  /** An absolute path has the components of its plain spelling: doubled slashes, `.` parts
      and a trailing slash never matter. */
  lemma SpellingDoesNotMatter(path: seq<Byte>)
    requires Components(path).Some?
    ensures Components(Spelled(Parts(path))) == Components(path)
  {
    hide Spelled;
    PartsAreProper(path);
    PlainSpelling(Parts(path));
  }

  const CLOSE: Byte := 0xff

  /** The bytes hashed for a list of components, each closed with 0xff. */
  function Encoded(components: seq<seq<Byte>>): seq<Byte> {
    if components == [] then []
    else Encoded(components[..|components| - 1]) + components[|components| - 1] + [CLOSE]
  }

  /** `{value:016x}` */
  function Hex16(v: bv64): string {
    Hex8((v >> 32) as bv32) + Hex8((v & 0xFFFF_FFFF) as bv32)
  }

  function TaskName(components: seq<seq<Byte>>): string {
    Hex16(Hash64(OFFSET64, Encoded(components)))
  }

  /** `task_name`, component by component and byte by byte. */
  method ComputeTaskName(components: seq<seq<Byte>>) returns (name: string)
    ensures name == TaskName(components)
  {
    hide Step64;
    hide Hex16;
    var value := OFFSET64;
    for i := 0 to |components|
      invariant value == Hash64(OFFSET64, Encoded(components[..i]))
    {
      var c := components[i];
      ghost var before := Encoded(components[..i]);
      assert before + c[..0] == before;
      for j := 0 to |c|
        invariant value == Hash64(OFFSET64, before + c[..j])
      {
        value := Step64(value, c[j]);
        assert (before + c[..j + 1])[..|before| + j] == before + c[..j];
      }
      value := Step64(value, CLOSE);
      assert c[..|c|] == c;
      assert (before + c + [CLOSE])[..|before + c|] == before + c;
      assert components[..i + 1][..i] == components[..i];
    }
    assert components[..|components|] == components;
    name := Hex16(value);
  }

  lemma NextByte64(bytes: seq<Byte>, before: bv64, b: Byte, after: bv64) returns (longer: seq<Byte>)
    requires Hash64(OFFSET64, bytes) == before && Step64(before, b) == after
    ensures longer == bytes + [b] && Hash64(OFFSET64, longer) == after
  {
    hide Step64;
    longer := bytes + [b];
    assert longer[..|bytes|] == bytes;
  }

  lemma NoBytes64()
    ensures Hash64(OFFSET64, []) == OFFSET64
  {
  }

  /** What is hashed of `/x/runs/r/tasks/t`. */
  const PINNED: seq<Byte> :=
    [47, 255, 120, 255, 114, 117, 110, 115, 255, 114, 255, 116, 97, 115, 107, 115, 255, 116, 255]

  lemma PinnedHash()
    ensures Hash64(OFFSET64, PINNED) == 0xebb4_60a1_810f_194c
  {
    hide Hash64;
    NoBytes64();
    var s: seq<Byte> := [];
    s := NextByte64(s, 0xcbf2_9ce4_8422_2325, 47, 0xaf63_a24c_8601_89fe);
    s := NextByte64(s, 0xaf63_a24c_8601_89fe, 255, 0x07d5_c907_b49b_ccb3);
    s := NextByte64(s, 0x07d5_c907_b49b_ccb3, 120, 0xec11_6317_e4bc_fcf1);
    s := NextByte64(s, 0xec11_6317_e4bc_fcf1, 255, 0xde87_6f99_ad20_4bca);
    s := NextByte64(s, 0xde87_6f99_ad20_4bca, 114, 0x406e_5a21_2de0_a9a8);
    s := NextByte64(s, 0x406e_5a21_2de0_a9a8, 117, 0x5c2d_0360_f4c0_a287);
    s := NextByte64(s, 0x5c2d_0360_f4c0_a287, 110, 0x611f_a6bf_e354_d1eb);
    s := NextByte64(s, 0x611f_a6bf_e354_d1eb, 115, 0x5d99_f00f_4920_2548);
    s := NextByte64(s, 0x5d99_f00f_4920_2548, 255, 0x2cb8_a0f9_41a0_15f5);
    s := NextByte64(s, 0x2cb8_a0f9_41a0_15f5, 114, 0x9dcf_0e8a_8304_9465);
    s := NextByte64(s, 0x9dcf_0e8a_8304_9465, 255, 0x2b6a_4f5c_a0c8_81ae);
    s := NextByte64(s, 0x2b6a_4f5c_a0c8_81ae, 116, 0x8e26_b465_34b4_a56e);
    s := NextByte64(s, 0x8e26_b465_34b4_a56e, 97, 0x4069_96f8_8ef4_787d);
    s := NextByte64(s, 0x4069_96f8_8ef4_787d, 115, 0x67e3_965a_e967_ffca);
    s := NextByte64(s, 0x67e3_965a_e967_ffca, 107, 0xefb8_1d7a_9bb7_5e93);
    s := NextByte64(s, 0xefb8_1d7a_9bb7_5e93, 115, 0x0d38_f756_9896_36a0);
    s := NextByte64(s, 0x0d38_f756_9896_36a0, 255, 0x0e02_a725_473e_636d);
    s := NextByte64(s, 0x0e02_a725_473e_636d, 116, 0x0ce5_1d58_0f02_637b);
    s := NextByte64(s, 0x0ce5_1d58_0f02_637b, 255, 0xebb4_60a1_810f_194c);
    assert s == PINNED;
  }

  lemma UpTo(parts: seq<seq<Byte>>, k: nat, encoded: seq<Byte>, c: seq<Byte>) returns (more: seq<Byte>)
    requires k < |parts| && parts[k] == c && Encoded(parts[..k]) == encoded
    ensures more == encoded + c + [CLOSE] && Encoded(parts[..k + 1]) == more
  {
    more := encoded + c + [CLOSE];
    assert parts[..k + 1][..k] == parts[..k];
  }

  lemma PinnedBytes(parts: seq<seq<Byte>>)
    requires |parts| == 6 && parts[0] == [47] && parts[1] == [120] && parts[2] == [114, 117, 110, 115]
    requires parts[3] == [114] && parts[4] == [116, 97, 115, 107, 115] && parts[5] == [116]
    ensures Encoded(parts) == PINNED
  {
    assert parts[..0] == [] && Encoded([]) == [];
    hide Encoded;
    var e := UpTo(parts, 0, [], [47]);
    assert e == [47, 255];
    e := UpTo(parts, 1, e, [120]);
    assert e == [47, 255, 120, 255];
    e := UpTo(parts, 2, e, [114, 117, 110, 115]);
    assert e == [47, 255, 120, 255, 114, 117, 110, 115, 255];
    e := UpTo(parts, 3, e, [114]);
    assert e == [47, 255, 120, 255, 114, 117, 110, 115, 255, 114, 255];
    e := UpTo(parts, 4, e, [116, 97, 115, 107, 115]);
    assert e == [47, 255, 120, 255, 114, 117, 110, 115, 255, 114, 255, 116, 97, 115, 107, 115, 255];
    e := UpTo(parts, 5, e, [116]);
    assert parts[..6] == parts;
  }

  lemma PinnedComponents()
    ensures Encoded([[47], [120], [114, 117, 110, 115], [114], [116, 97, 115, 107, 115], [116]]) == PINNED
  {
    hide Encoded;
    PinnedBytes([[47], [120], [114, 117, 110, 115], [114], [116, 97, 115, 107, 115], [116]]);
  }

  /** The task name both languages pin. */
  lemma PinnedTaskName()
    ensures TaskName([[47], [120], [114, 117, 110, 115], [114], [116, 97, 115, 107, 115], [116]]) == "ebb460a1810f194c"
  {
    hide Hash64;
    hide Encoded;
    PinnedComponents();
    PinnedHash();
  }

  lemma HalvesSeparate(v: bv64, w: bv64)
    requires (v >> 32) as bv32 == (w >> 32) as bv32
    requires (v & 0xFFFF_FFFF) as bv32 == (w & 0xFFFF_FFFF) as bv32
    ensures v == w
  {
  }

  lemma Hex16Separates(v: bv64, w: bv64)
    ensures Hex16(v) == Hex16(w) <==> v == w
  {
    hide Hex8;
    if Hex16(v) == Hex16(w) {
      assert Hex16(v)[..8] == Hex8((v >> 32) as bv32) && Hex16(w)[..8] == Hex8((w >> 32) as bv32);
      assert Hex16(v)[8..] == Hex8((v & 0xFFFF_FFFF) as bv32) && Hex16(w)[8..] == Hex8((w & 0xFFFF_FFFF) as bv32);
      HexSeparates((v >> 32) as bv32, (w >> 32) as bv32);
      HexSeparates((v & 0xFFFF_FFFF) as bv32, (w & 0xFFFF_FFFF) as bv32);
      HalvesSeparate(v, w);
    }
  }

  /** Directories whose encodings are one byte apart never share a task name. */
  lemma TasksOneByteApart(a: seq<seq<Byte>>, b: seq<seq<Byte>>, k: nat)
    requires OneByteApart(Encoded(a), Encoded(b), k)
    ensures TaskName(a) != TaskName(b)
  {
    hide Hex16;
    hide Hash64;
    OneByteChangesHash64(OFFSET64, Encoded(a), Encoded(b), k);
    Hex16Separates(Hash64(OFFSET64, Encoded(a)), Hash64(OFFSET64, Encoded(b)));
  }

  lemma ApartInContext(head: seq<Byte>, x: seq<Byte>, y: seq<Byte>, end: seq<Byte>, j: nat)
    requires OneByteApart(x, y, j)
    ensures OneByteApart(head + x + end, head + y + end, |head| + j)
  {
    var k, u, v := |head| + j, head + x + end, head + y + end;
    assert u[..k] == head + x[..j] && v[..k] == head + y[..j];
    assert u[k + 1..] == x[j + 1..] + end && v[k + 1..] == y[j + 1..] + end;
  }

  lemma ApartBefore(x: seq<Byte>, y: seq<Byte>, c: seq<Byte>, k: nat)
    requires OneByteApart(x, y, k)
    ensures OneByteApart(x + c + [CLOSE], y + c + [CLOSE], k)
  {
    ApartInContext([], x, y, c + [CLOSE], k);
    hide OneByteApart;
    assert [] + x + (c + [CLOSE]) == x + c + [CLOSE] && [] + y + (c + [CLOSE]) == y + c + [CLOSE];
  }

  lemma EncodedLast(a: seq<seq<Byte>>)
    requires a != []
    ensures Encoded(a) == Encoded(a[..|a| - 1]) + a[|a| - 1] + [CLOSE]
  {
  }

  /** Changing one byte of one component changes one byte of the encoding. */
  lemma {:induction false} ComponentChange(a: seq<seq<Byte>>, i: nat, c: seq<Byte>, j: nat) returns (k: nat)
    requires i < |a| && OneByteApart(a[i], c, j)
    ensures OneByteApart(Encoded(a), Encoded(a[i := c]), k)
    decreases |a|
  {
    hide OneByteApart;
    hide Encoded;
    var n := |a| - 1;
    var b := a[i := c];
    EncodedLast(a);
    EncodedLast(b);
    if i == n {
      k := |Encoded(a[..n])| + j;
      assert b[..n] == a[..n];
      ApartInContext(Encoded(a[..n]), a[n], c, [CLOSE], j);
    } else {
      k := ComponentChange(a[..n], i, c, j);
      assert b[..n] == a[..n][i := c];
      ApartBefore(Encoded(a[..n]), Encoded(b[..n]), a[n], k);
    }
  }

  /** One byte of one component changed, the task name changes. */
  lemma TaskNameSeesEveryByte(a: seq<seq<Byte>>, i: nat, c: seq<Byte>, j: nat)
    requires i < |a| && OneByteApart(a[i], c, j)
    ensures TaskName(a) != TaskName(a[i := c])
  {
    hide TaskName;
    hide Encoded;
    var k := ComponentChange(a, i, c, j);
    TasksOneByteApart(a, a[i := c], k);
  }

  ghost predicate Unclosed(c: seq<Byte>) {
    forall k | 0 <= k < |c| :: c[k] != CLOSE
  }

  /** The closing byte keeps components apart when none of them contains it. */
  lemma {:induction false} EncodingSeparates(a: seq<seq<Byte>>, b: seq<seq<Byte>>)
    requires forall k | 0 <= k < |a| :: Unclosed(a[k])
    requires forall k | 0 <= k < |b| :: Unclosed(b[k])
    requires Encoded(a) == Encoded(b)
    ensures a == b
    decreases |a|
  {
    if a == [] || b == [] {
      assert |Encoded(a)| == 0;
    } else {
      var n, m := |a| - 1, |b| - 1;
      var e := Encoded(a);
      var x, y := |Encoded(a[..n])|, |Encoded(b[..m])|;
      assert a[n] == e[x..|e| - 1] && b[m] == e[y..|e| - 1];
      EndsClosed(a[..n]);
      EndsClosed(b[..m]);
      assert x > 0 ==> e[x - 1] == CLOSE;
      assert y > 0 ==> e[y - 1] == CLOSE;
      assert x == y;
      assert Encoded(a[..n]) == e[..x] && Encoded(b[..m]) == e[..x];
      EncodingSeparates(a[..n], b[..m]);
      assert a == a[..n] + [a[n]] && b == b[..m] + [b[m]];
    }
  }

  lemma EndsClosed(a: seq<seq<Byte>>)
    ensures a != [] ==> Encoded(a) != [] && Encoded(a)[|Encoded(a)| - 1] == CLOSE
  {
  }

  /** A component cut at its closing bytes. */
  function Cut(c: seq<Byte>): (parts: seq<seq<Byte>>)
    ensures |parts| >= 1
  {
    if c == [] then [[]]
    else
      var before := Cut(c[..|c| - 1]);
      var n, b := |before| - 1, c[|c| - 1];
      if b == CLOSE then before + [[]] else before[..n] + [before[n] + [b]]
  }

  /** Every component cut at its closing bytes. */
  function CutAll(components: seq<seq<Byte>>): seq<seq<Byte>> {
    if components == [] then []
    else CutAll(components[..|components| - 1]) + Cut(components[|components| - 1])
  }

  lemma {:induction false} EncodedAppend(a: seq<seq<Byte>>, b: seq<seq<Byte>>)
    ensures Encoded(a + b) == Encoded(a) + Encoded(b)
    decreases |b|
  {
    if b == [] {
      assert a + b == a;
    } else {
      assert (a + b)[..|a + b| - 1] == a + b[..|b| - 1];
      EncodedAppend(a, b[..|b| - 1]);
    }
  }

  lemma EncodedOne(c: seq<Byte>)
    ensures Encoded([c]) == c + [CLOSE]
  {
    assert [c][..0] == [];
  }

  lemma EncodedCloses(parts: seq<seq<Byte>>)
    ensures Encoded(parts + [[]]) == Encoded(parts) + [CLOSE]
  {
    EncodedAppend(parts, [[]]);
    EncodedOne([]);
    hide Encoded;
    assert [] + [CLOSE] == [CLOSE];
  }

  lemma EncodedGrows(parts: seq<seq<Byte>>, c: seq<Byte>, b: Byte)
    requires parts != [] && Encoded(parts) == c + [CLOSE]
    ensures var n := |parts| - 1; Encoded(parts[..n] + [parts[n] + [b]]) == c + [b] + [CLOSE]
  {
    hide Encoded;
    var n := |parts| - 1;
    var head := Encoded(parts[..n]);
    assert parts == parts[..n] + [parts[n]];
    EncodedAppend(parts[..n], [parts[n]]);
    EncodedOne(parts[n]);
    EncodedAppend(parts[..n], [parts[n] + [b]]);
    EncodedOne(parts[n] + [b]);
    BeforeClose(head, parts[n], c, b);
  }

  lemma BeforeClose(head: seq<Byte>, x: seq<Byte>, c: seq<Byte>, b: Byte)
    requires head + (x + [CLOSE]) == c + [CLOSE]
    ensures head + (x + [b] + [CLOSE]) == c + [b] + [CLOSE]
  {
    assert (head + (x + [CLOSE]))[..|c|] == head + x;
    assert (c + [CLOSE])[..|c|] == c;
  }

  /** A component and its parts are hashed as the same bytes. */
  lemma {:induction false} CutEncodes(c: seq<Byte>)
    ensures Encoded(Cut(c)) == c + [CLOSE]
    decreases |c|
  {
    if c == [] {
      EncodedOne([]);
    } else {
      var m := |c| - 1;
      CutEncodes(c[..m]);
      hide Encoded;
      assert c[..m] + [c[m]] == c;
      if c[m] == CLOSE {
        EncodedCloses(Cut(c[..m]));
      } else {
        EncodedGrows(Cut(c[..m]), c[..m], c[m]);
      }
    }
  }

  lemma {:induction false} CutIsUnclosed(c: seq<Byte>)
    ensures forall k | 0 <= k < |Cut(c)| :: Unclosed(Cut(c)[k])
    decreases |c|
  {
    if c != [] {
      CutIsUnclosed(c[..|c| - 1]);
    }
  }

  lemma {:induction false} CutAllEncodes(a: seq<seq<Byte>>)
    ensures Encoded(CutAll(a)) == Encoded(a)
    ensures forall k | 0 <= k < |CutAll(a)| :: Unclosed(CutAll(a)[k])
    decreases |a|
  {
    if a != [] {
      var n := |a| - 1;
      CutAllEncodes(a[..n]);
      CutEncodes(a[n]);
      CutIsUnclosed(a[n]);
      EncodedAppend(CutAll(a[..n]), Cut(a[n]));
    }
  }

  /** Two lists of components are hashed as the same bytes exactly when they are the same
      once every component is cut at its closing bytes. */
  lemma SameEncodingIff(a: seq<seq<Byte>>, b: seq<seq<Byte>>)
    ensures Encoded(a) == Encoded(b) <==> CutAll(a) == CutAll(b)
  {
    CutAllEncodes(a);
    CutAllEncodes(b);
    if Encoded(a) == Encoded(b) {
      EncodingSeparates(CutAll(a), CutAll(b));
    }
  }

  /** Without closing bytes in the components nothing is cut. */
  lemma UncutWhenUnclosed(a: seq<seq<Byte>>)
    requires forall k | 0 <= k < |a| :: Unclosed(a[k])
    ensures CutAll(a) == a
  {
    CutAllEncodes(a);
    EncodingSeparates(CutAll(a), a);
  }

  lemma {:induction false} PartsAreUnclosed(path: seq<Byte>)
    requires Unclosed(path)
    ensures Unclosed(LastPart(path))
    ensures forall k | 0 <= k < |Parts(path)| :: Unclosed(Parts(path)[k])
    ensures forall k | 0 <= k < |EndedParts(path)| :: Unclosed(EndedParts(path)[k])
    decreases |path|
  {
    hide IsPart;
    if path != [] {
      PartsAreUnclosed(path[..|path| - 1]);
    }
  }

  /** Absolute paths without the byte 0xff are hashed as the same bytes exactly when they
      have the same components. */
  lemma PlainPathsSeparate(a: seq<Byte>, b: seq<Byte>)
    requires Components(a).Some? && Components(b).Some? && Unclosed(a) && Unclosed(b)
    ensures Encoded(Components(a).value) == Encoded(Components(b).value) <==> Components(a) == Components(b)
  {
    hide Parts;
    hide Encoded;
    hide CutAll;
    PartsAreUnclosed(a);
    PartsAreUnclosed(b);
    UncutWhenUnclosed(Components(a).value);
    UncutWhenUnclosed(Components(b).value);
    SameEncodingIff(Components(a).value, Components(b).value);
  }

  /** `task_name` of a path, an error for one that is not absolute. */
  function NameOf(path: seq<Byte>): Option<string> {
    match Components(path)
    case Some(cs) => Some(TaskName(cs))
    case None => None
  }

  /** Two different directories, `/a\xffb` and `/a/b`, share their task name. */
  lemma ClosingByteCollides()
    ensures var one, two := [SLASH, 97, CLOSE, 98], [SLASH, 97, SLASH, 98];
            && Components(one) == Some([[SLASH], [97, CLOSE, 98]]) && Components(two) == Some([[SLASH], [97], [98]])
            && NameOf(one) == NameOf(two)
  {
    hide TaskName;
    hide Components;
    var one, two := [[97 as Byte, CLOSE, 98]], [[97 as Byte], [98 as Byte]];
    PlainSpelling(one);
    PlainSpelling(two);
    assert two[..1] == [[97 as Byte]];
    assert Spelled(one) == [SLASH, 97, CLOSE, 98] && Spelled(two) == [SLASH, 97, SLASH, 98];
    SameEncodings();
    assert [[SLASH]] + one == [[SLASH], [97, CLOSE, 98]] && [[SLASH]] + two == [[SLASH], [97], [98]];
    SameName([[SLASH], [97, CLOSE, 98]], [[SLASH], [97], [98]]);
  }

  lemma SameEncodings()
    ensures Encoded([[SLASH], [97, CLOSE, 98]]) == Encoded([[SLASH], [97], [98]])
  {
    var root, one, a, b := [[SLASH]], [[97 as Byte, CLOSE, 98]], [[97 as Byte]], [[98 as Byte]];
    EncodedOne(one[0]);
    EncodedOne(a[0]);
    EncodedOne(b[0]);
    hide Encoded;
    EncodedAppend(root, one);
    EncodedAppend(root, a + b);
    EncodedAppend(a, b);
    assert [[SLASH], [97, CLOSE, 98]] == root + one && [[SLASH], [97], [98]] == root + (a + b);
    assert [97 as Byte, CLOSE, 98] + [CLOSE] == [97, CLOSE] + [98, CLOSE];
  }

  lemma SameName(a: seq<seq<Byte>>, b: seq<seq<Byte>>)
    requires Encoded(a) == Encoded(b)
    ensures TaskName(a) == TaskName(b)
  {
  }
}
