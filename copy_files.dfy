/**
  A model of the hierarchical file copier: a pass over a source tree that
  keeps the files whose base name passes a selector and writes each of them
  into one flat destination directory, under a name that encodes the
  directories it came from (`a/b/note.md` becomes `a_b_note.md`).

  The file system is abstract: the traversal is a given sequence of entries,
  the destination directory is an object holding a "present" flag and a map
  from file names to contents, and copying a file is a single-key update of
  that map.
 */
module CopyFiles {

  datatype Option<T> = None | Some(value: T)

  /** File contents, as bytes. */
  type Bytes = seq<bv8>

  /**
    One entry produced by the recursive traversal of the source tree:
    `parts` are the directory components of its path relative to the source
    root (empty for an entry directly under the root), `name` its base name,
    `isFile` whether it is a regular file (directories are only recursed
    into), and `content` the bytes a copy of it would carry.
   */
  datatype Entry = Entry(parts: seq<string>, name: string, isFile: bool, content: Bytes)

  // ---------------------------------------------------------------------
  // The default selector
  // ---------------------------------------------------------------------

  predicate EndsWith(s: string, suffix: string) {
    |suffix| <= |s| && s[|s| - |suffix|..] == suffix
  }

  /** The default selector: the base name ends with `.md` or with `.rst`. */
  predicate DefaultFileFilter(filename: string) {
    EndsWith(filename, ".md") || EndsWith(filename, ".rst")
  }

  /** `EndsWith` agrees with the definition "s is some stem followed by the suffix". */
  lemma EndsWithIffStem(s: string, suffix: string)
    ensures EndsWith(s, suffix) <==> exists stem :: s == stem + suffix
  {
    if EndsWith(s, suffix) {
      var stem := s[..|s| - |suffix|];
      assert s == stem + suffix;
    }
    if exists stem :: s == stem + suffix {
      var stem :| s == stem + suffix;
      assert s[|s| - |suffix|..] == suffix;
    }
  }

  /** The default selector accepts exactly the names that are a stem followed by `.md` or `.rst`. */
  lemma DefaultFileFilterSpec(filename: string)
    ensures DefaultFileFilter(filename) <==>
              (exists stem :: filename == stem + ".md") || (exists stem :: filename == stem + ".rst")
  {
    EndsWithIffStem(filename, ".md");
    EndsWithIffStem(filename, ".rst");
  }

  lemma DefaultFileFilterExamples()
    ensures DefaultFileFilter("readme.md") && DefaultFileFilter("spec.rst")
    ensures !DefaultFileFilter("image.png") && !DefaultFileFilter("notes.markdown")
    ensures !DefaultFileFilter("md") && !DefaultFileFilter("")
  {
  }

  // ---------------------------------------------------------------------
  // The flattening rename rule
  // ---------------------------------------------------------------------

  /** The separator that replaces the directory separator in flattened names. */
  const Separator: string := "_"

  /** `sep.join(parts)`: the parts with `sep` between consecutive ones. */
  function Join(parts: seq<string>, sep: string): string
  {
    if |parts| == 0 then ""
    else if |parts| == 1 then parts[0]
    else parts[0] + sep + Join(parts[1..], sep)
  }

  /**
    The destination name of a file with parent directory components `parts`
    and base name `name`: the components joined by `_`, then `_`, then the
    name; a file directly under the root keeps its name.
   */
  function NewName(parts: seq<string>, name: string): string
  {
    if |parts| > 0 then Join(parts, Separator) + Separator + name else name
  }

  /** Reference definition of the flattened prefix: every component followed by `_`. */
  function DirPrefix(parts: seq<string>): string
  {
    if parts == [] then "" else parts[0] + Separator + DirPrefix(parts[1..])
  }

  lemma {:induction false} JoinThenSeparator(parts: seq<string>)
    requires |parts| > 0
    ensures Join(parts, Separator) + Separator == DirPrefix(parts)
  {
    if |parts| == 1 {
      assert DirPrefix(parts[1..]) == "";
    } else {
      JoinThenSeparator(parts[1..]);
      calc {
        Join(parts, Separator) + Separator;
        (parts[0] + Separator + Join(parts[1..], Separator)) + Separator;
        parts[0] + Separator + (Join(parts[1..], Separator) + Separator);
        parts[0] + Separator + DirPrefix(parts[1..]);
      }
    }
  }

  /** For every input, the flattened name is `p1_..._pn_` followed by the base name. */
  lemma NewNameIsPrefixPlusName(parts: seq<string>, name: string)
    ensures NewName(parts, name) == DirPrefix(parts) + name
  {
    if |parts| > 0 {
      JoinThenSeparator(parts);
      assert Join(parts, Separator) + Separator + name == (Join(parts, Separator) + Separator) + name;
    }
  }

  lemma NewNameExamples()
    ensures NewName(["a", "b"], "note.md") == "a_b_note.md"
    ensures NewName([], "note.md") == "note.md"
  {
    assert Join(["a", "b"], Separator) == "a_b" by {
      assert ["a", "b"][1..] == ["b"];
    }
  }

  /** A file directly under the source root keeps its base name. */
  lemma NewNameAtRoot(name: string)
    ensures NewName([], name) == name
  {
  }

  /** The destination name always ends with the original base name. */
  lemma NewNameEndsWithName(parts: seq<string>, name: string)
    ensures EndsWith(NewName(parts, name), name)
    ensures |NewName(parts, name)| >= |name|
  {
    NewNameIsPrefixPlusName(parts, name);
    EndsWithIffStem(NewName(parts, name), name);
  }

  /** Two files in the same directory get the same destination name only if their base names are equal. */
  lemma NewNameSameDirInjective(parts: seq<string>, name1: string, name2: string)
    ensures NewName(parts, name1) == NewName(parts, name2) <==> name1 == name2
  {
    NewNameIsPrefixPlusName(parts, name1);
    NewNameIsPrefixPlusName(parts, name2);
    var p := DirPrefix(parts);
    if p + name1 == p + name2 {
      assert name1 == (p + name1)[|p|..];
      assert name2 == (p + name2)[|p|..];
    }
  }

  /** The rule is not injective across directories: `a/b_c.md` and `a_b/c.md` collide. */
  lemma NewNameCollidesAcrossDirectories()
    ensures (["a"], "b_c.md") != (["a_b"], "c.md")
    ensures NewName(["a"], "b_c.md") == NewName(["a_b"], "c.md") == "a_b_c.md"
  {
  }

  predicate NoSeparator(s: string) {
    '_' !in s
  }

  predicate AllNoSeparator(parts: seq<string>) {
    forall i :: 0 <= i < |parts| ==> NoSeparator(parts[i])
  }

  /** Index of the first `_` in `s`, or `|s|` when there is none. */
  function FirstSeparator(s: string): (k: nat)
    ensures k <= |s|
  {
    if s == [] then 0 else if s[0] == '_' then 0 else 1 + FirstSeparator(s[1..])
  }

  lemma {:induction false} FirstSeparatorAfter(a: string, rest: string)
    requires NoSeparator(a)
    ensures FirstSeparator(a + Separator + rest) == |a|
  {
    if a != [] {
      assert (a + Separator + rest)[1..] == a[1..] + Separator + rest;
      FirstSeparatorAfter(a[1..], rest);
    }
  }

  lemma {:induction false} DirPrefixInjective(parts1: seq<string>, name1: string, parts2: seq<string>, name2: string)
    requires AllNoSeparator(parts1) && AllNoSeparator(parts2)
    requires NoSeparator(name1) && NoSeparator(name2)
    ensures DirPrefix(parts1) + name1 == DirPrefix(parts2) + name2 <==> parts1 == parts2 && name1 == name2
    decreases |parts1|
  {
    var s1, s2 := DirPrefix(parts1) + name1, DirPrefix(parts2) + name2;
    if parts1 == [] && parts2 == [] {
      assert s1 == name1 && s2 == name2;
    } else if parts1 == [] {
      assert s2[|parts2[0]|] == '_';
      assert '_' in s2;
    } else if parts2 == [] {
      assert s1[|parts1[0]|] == '_';
      assert '_' in s1;
    } else if s1 == s2 {
      var h1, t1 := parts1[0], DirPrefix(parts1[1..]) + name1;
      var h2, t2 := parts2[0], DirPrefix(parts2[1..]) + name2;
      assert s1 == h1 + Separator + t1;
      assert s2 == h2 + Separator + t2;
      assert NoSeparator(h1) && NoSeparator(h2);
      FirstSeparatorAfter(h1, t1);
      FirstSeparatorAfter(h2, t2);
      assert |h1| == |h2|;
      assert h1 == s1[..|h1|] == s2[..|h2|] == h2;
      assert t1 == s1[|h1| + 1..] == s2[|h2| + 1..] == t2;
      assert AllNoSeparator(parts1[1..]) && AllNoSeparator(parts2[1..]);
      DirPrefixInjective(parts1[1..], name1, parts2[1..], name2);
      assert parts1 == [h1] + parts1[1..];
      assert parts2 == [h2] + parts2[1..];
    }
  }

  /**
    When no directory component and no base name contains `_`, the rename
    rule is injective: distinct relative paths get distinct destination names.
   */
  lemma NewNameInjectiveWithoutSeparator(parts1: seq<string>, name1: string, parts2: seq<string>, name2: string)
    requires AllNoSeparator(parts1) && AllNoSeparator(parts2)
    requires NoSeparator(name1) && NoSeparator(name2)
    ensures NewName(parts1, name1) == NewName(parts2, name2) <==> parts1 == parts2 && name1 == name2
  {
    NewNameIsPrefixPlusName(parts1, name1);
    NewNameIsPrefixPlusName(parts2, name2);
    DirPrefixInjective(parts1, name1, parts2, name2);
  }

  // ---------------------------------------------------------------------
  // The copy pass, as functions of the traversal
  // ---------------------------------------------------------------------

  /** An entry is copied when it is a file and its base name passes the selector. */
  predicate Selected(e: Entry, filter: string -> bool) {
    e.isFile && filter(e.name)
  }

  function DestName(e: Entry): string {
    NewName(e.parts, e.name)
  }

  /** The number of copies the pass makes over `src` (one per selected entry). */
  function CountSelected(src: seq<Entry>, filter: string -> bool): nat
  {
    if src == [] then 0
    else CountSelected(src[..|src| - 1], filter) + (if Selected(src[|src| - 1], filter) then 1 else 0)
  }

  /** The destination map after copying every selected entry of `src`, in order, into `m`. */
  function AfterCopies(m: map<string, Bytes>, src: seq<Entry>, filter: string -> bool): map<string, Bytes>
  {
    if src == [] then m
    else
      var before := AfterCopies(m, src[..|src| - 1], filter);
      var e := src[|src| - 1];
      if Selected(e, filter) then before[DestName(e) := e.content] else before
  }

  /** Positions of the selected entries of the traversal. */
  function SelectedIndices(src: seq<Entry>, filter: string -> bool): set<int>
  {
    set i | 0 <= i < |src| && Selected(src[i], filter)
  }

  /** The destination names the pass writes: the rename rule applied to every selected entry. */
  function Targets(src: seq<Entry>, filter: string -> bool): set<string>
  {
    set i | 0 <= i < |src| && Selected(src[i], filter) :: DestName(src[i])
  }

  /** The step the inductions over `Targets` use: appending an entry adds at most its own destination name. */
  lemma TargetsSnoc(src: seq<Entry>, filter: string -> bool)
    requires src != []
    ensures Targets(src, filter) ==
              Targets(src[..|src| - 1], filter) +
              (if Selected(src[|src| - 1], filter) then {DestName(src[|src| - 1])} else {})
  {
    var pre, e := src[..|src| - 1], src[|src| - 1];
    var extra: set<string> := if Selected(e, filter) then {DestName(e)} else {};
    forall x | x in Targets(src, filter) ensures x in Targets(pre, filter) + extra {
      var i :| 0 <= i < |src| && Selected(src[i], filter) && DestName(src[i]) == x;
      if i < |pre| {
        assert pre[i] == src[i];
      }
    }
    forall x | x in Targets(pre, filter) + extra ensures x in Targets(src, filter) {
      if x in Targets(pre, filter) {
        var i :| 0 <= i < |pre| && Selected(pre[i], filter) && DestName(pre[i]) == x;
        assert src[i] == pre[i];
      } else {
        assert src[|src| - 1] == e;
      }
    }
  }

  /** The returned count is the number of entries that are files and pass the selector. */
  lemma {:induction false} CountSelectedIsNumberSelected(src: seq<Entry>, filter: string -> bool)
    ensures CountSelected(src, filter) == |SelectedIndices(src, filter)|
  {
    if src != [] {
      var pre := src[..|src| - 1];
      var last := |src| - 1;
      CountSelectedIsNumberSelected(pre, filter);
      var before := SelectedIndices(pre, filter);
      var extra: set<int> := if Selected(src[last], filter) then {last} else {};
      forall i | 0 <= i < |pre| ensures pre[i] == src[i] { }
      assert SelectedIndices(src, filter) == before + extra;
      assert last !in before;
    }
  }

  /** Which names are produced: the keys already there plus the flattened name of every selected entry. */
  lemma {:induction false} AfterCopiesKeys(m: map<string, Bytes>, src: seq<Entry>, filter: string -> bool)
    ensures AfterCopies(m, src, filter).Keys == m.Keys + Targets(src, filter)
  {
    if src != [] {
      AfterCopiesKeys(m, src[..|src| - 1], filter);
      TargetsSnoc(src, filter);
    }
  }

  /** A name no selected entry targets keeps whatever the destination held beforehand (or stays absent). */
  lemma {:induction false} AfterCopiesUntargeted(m: map<string, Bytes>, src: seq<Entry>, filter: string -> bool, k: string)
    requires k !in Targets(src, filter)
    ensures k in AfterCopies(m, src, filter) <==> k in m
    ensures k in m ==> AfterCopies(m, src, filter)[k] == m[k]
  {
    if src != [] {
      TargetsSnoc(src, filter);
      AfterCopiesUntargeted(m, src[..|src| - 1], filter, k);
    }
  }

  /**
    Last write wins: a selected entry that no later selected entry collides
    with leaves its own content under its destination name.
   */
  lemma {:induction false} AfterCopiesLastWins(m: map<string, Bytes>, src: seq<Entry>, filter: string -> bool, i: int)
    requires 0 <= i < |src| && Selected(src[i], filter)
    requires forall j :: i < j < |src| && Selected(src[j], filter) ==> DestName(src[j]) != DestName(src[i])
    ensures DestName(src[i]) in AfterCopies(m, src, filter)
    ensures AfterCopies(m, src, filter)[DestName(src[i])] == src[i].content
  {
    if i < |src| - 1 {
      var pre := src[..|src| - 1];
      assert pre[i] == src[i];
      forall j | i < j < |pre| && Selected(pre[j], filter) ensures DestName(pre[j]) != DestName(pre[i]) {
        assert pre[j] == src[j];
      }
      AfterCopiesLastWins(m, pre, filter, i);
    }
  }

  /** What ends up under a targeted name does not depend on what the destination held before. */
  lemma {:induction false} AfterCopiesTargetedAgree(
    m1: map<string, Bytes>, m2: map<string, Bytes>, src: seq<Entry>, filter: string -> bool, k: string)
    requires k in Targets(src, filter)
    ensures k in AfterCopies(m1, src, filter) && k in AfterCopies(m2, src, filter)
    ensures AfterCopies(m1, src, filter)[k] == AfterCopies(m2, src, filter)[k]
  {
    var pre, e := src[..|src| - 1], src[|src| - 1];
    TargetsSnoc(src, filter);
    if !(Selected(e, filter) && DestName(e) == k) {
      AfterCopiesTargetedAgree(m1, m2, pre, filter, k);
    }
  }

  /** Running the pass a second time over its own result changes nothing. */
  lemma AfterCopiesIdempotent(m: map<string, Bytes>, src: seq<Entry>, filter: string -> bool)
    ensures AfterCopies(AfterCopies(m, src, filter), src, filter) == AfterCopies(m, src, filter)
  {
    var once := AfterCopies(m, src, filter);
    var twice := AfterCopies(once, src, filter);
    AfterCopiesKeys(m, src, filter);
    AfterCopiesKeys(once, src, filter);
    forall k | k in twice ensures twice[k] == once[k] {
      if k in Targets(src, filter) {
        AfterCopiesTargetedAgree(once, m, src, filter, k);
      } else {
        AfterCopiesUntargeted(once, src, filter, k);
      }
    }
  }

  /**
    The set of names produced depends only on which entries the traversal
    visits, not on its order.
   */
  lemma TargetsOrderFree(src1: seq<Entry>, src2: seq<Entry>, filter: string -> bool)
    requires forall e :: e in src1 <==> e in src2
    ensures Targets(src1, filter) == Targets(src2, filter)
  {
    forall x | x in Targets(src1, filter) ensures x in Targets(src2, filter) {
      var i :| 0 <= i < |src1| && Selected(src1[i], filter) && DestName(src1[i]) == x;
      assert src1[i] in src2;
      var j :| 0 <= j < |src2| && src2[j] == src1[i];
    }
    forall x | x in Targets(src2, filter) ensures x in Targets(src1, filter) {
      var j :| 0 <= j < |src2| && Selected(src2[j], filter) && DestName(src2[j]) == x;
      assert src2[j] in src1;
      var i :| 0 <= i < |src1| && src1[i] == src2[j];
    }
  }

  /** Collisions only merge files: the destination gains at most as many names as copies were made. */
  lemma {:induction false} TargetsAtMostCount(src: seq<Entry>, filter: string -> bool)
    ensures |Targets(src, filter)| <= CountSelected(src, filter)
  {
    if src != [] {
      TargetsSnoc(src, filter);
      TargetsAtMostCount(src[..|src| - 1], filter);
    }
  }

  /** No two selected entries share a destination name. */
  predicate CollisionFree(src: seq<Entry>, filter: string -> bool) {
    forall i, j :: 0 <= i < j < |src| && Selected(src[i], filter) && Selected(src[j], filter) ==>
      DestName(src[i]) != DestName(src[j])
  }

  /** Without collisions every copy lands under a name of its own. */
  lemma {:induction false} TargetsCountWithoutCollisions(src: seq<Entry>, filter: string -> bool)
    requires CollisionFree(src, filter)
    ensures |Targets(src, filter)| == CountSelected(src, filter)
  {
    if src != [] {
      var pre, e := src[..|src| - 1], src[|src| - 1];
      TargetsSnoc(src, filter);
      assert CollisionFree(pre, filter) by {
        forall i, j | 0 <= i < j < |pre| ensures pre[i] == src[i] && pre[j] == src[j] { }
      }
      TargetsCountWithoutCollisions(pre, filter);
      if Selected(e, filter) {
        forall x | x in Targets(pre, filter) ensures x != DestName(e) {
          var i :| 0 <= i < |pre| && Selected(pre[i], filter) && DestName(pre[i]) == x;
          assert pre[i] == src[i];
        }
      }
    }
  }

  /** The default selector over `readme.md`, `spec.rst` and `image.png` at the root copies only the first two. */
  lemma DefaultSelectorExample(a: Bytes, b: Bytes, c: Bytes)
    ensures var src := [Entry([], "readme.md", true, a), Entry([], "spec.rst", true, b),
                        Entry([], "image.png", true, c)];
            && CountSelected(src, DefaultFileFilter) == 2
            && AfterCopies(map[], src, DefaultFileFilter) == map["readme.md" := a, "spec.rst" := b]
  {
    var src := [Entry([], "readme.md", true, a), Entry([], "spec.rst", true, b),
                Entry([], "image.png", true, c)];
    DefaultFileFilterExamples();
    assert src[..3] == src;
    assert src[..2][..1] == src[..1];
    assert src[..1][..0] == [];
    assert CountSelected(src[..1], DefaultFileFilter) == 1;
    assert CountSelected(src[..2], DefaultFileFilter) == 2;
    assert AfterCopies(map[], src[..1], DefaultFileFilter) == map["readme.md" := a];
    assert AfterCopies(map[], src[..2], DefaultFileFilter) == map["readme.md" := a, "spec.rst" := b];
  }

  // ---------------------------------------------------------------------
  // The destination directory and the copy pass
  // ---------------------------------------------------------------------

  /** The destination directory: whether it exists, and the files it holds. */
  class Destination {
    var present: bool
    var files: map<string, Bytes>

    /** A directory that does not exist holds no files. */
    ghost predicate Valid()
      reads this
    {
      !present ==> files == map[]
    }

    constructor (present: bool, files: map<string, Bytes>)
      requires !present ==> files == map[]
      ensures Valid() && this.present == present && this.files == files
    {
      this.present := present;
      this.files := files;
    }

    /** Create the directory (with its parents) unless it already exists. */
    method EnsurePresent()
      requires Valid()
      modifies this
      ensures Valid() && present && files == old(files)
    {
      present := true;
    }

    /** Copy `content` into the directory under `name`, replacing any file already there. */
    method Write(name: string, content: Bytes)
      requires Valid() && present
      modifies this
      ensures Valid() && present && files == old(files)[name := content]
    {
      files := files[name := content];
    }
  }

  /**
    An interrupt at position `k` fires before entry `k` is handled; at
    position `n` it fires after the last entry, while the pass is still
    inside its `try`. Later positions never fire.
   */
  predicate Interrupted(interrupt: Option<nat>, n: nat) {
    interrupt.Some? && interrupt.value <= n
  }

  /**
    The copy pass: create the destination if needed, then copy every entry
    of the traversal that is a file passing `filter` under its flattened
    name, counting the copies. An interrupt ends the pass early: the files
    already copied stay and the result is 0.
   */
  method CopyFilesWithHierarchy(src: seq<Entry>, dest: Destination, filter: string -> bool, interrupt: Option<nat>)
    returns (count: nat)
    requires dest.Valid()
    modifies dest
    ensures dest.Valid() && dest.present
    ensures Interrupted(interrupt, |src|) ==>
              count == 0 && dest.files == AfterCopies(old(dest.files), src[..interrupt.value], filter)
    ensures !Interrupted(interrupt, |src|) ==>
              count == CountSelected(src, filter) && dest.files == AfterCopies(old(dest.files), src, filter)
  {
    dest.EnsurePresent();
    count := 0;
    var i := 0;
    while i < |src|
      invariant 0 <= i <= |src|
      invariant dest.Valid() && dest.present
      invariant interrupt.Some? ==> interrupt.value >= i
      invariant count == CountSelected(src[..i], filter)
      invariant dest.files == AfterCopies(old(dest.files), src[..i], filter)
    {
      if interrupt == Some(i) {
        return 0;
      }
      var entry := src[i];
      assert src[..i + 1][..i] == src[..i];
      if entry.isFile && filter(entry.name) {
        var newName := NewName(entry.parts, entry.name);
        dest.EnsurePresent();
        dest.Write(newName, entry.content);
        count := count + 1;
      }
      i := i + 1;
    }
    assert src[..i] == src;
    if interrupt == Some(|src|) {
      return 0;
    }
  }
}
