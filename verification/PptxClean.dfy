/** Removing unreferenced files from an unpacked presentation: the delete-until-nothing-changes
    loop of `clean_unused_files`.
 */
module PptxClean {
  import opened Basics

  /** A file by its directory below the package root and its name. */
  datatype Part = Part(dir: seq<string>, name: string)

  // ---------------------------------------------------------------- which file is what

  predicate EndsWith(s: string, suffix: string) {
    |suffix| <= |s| && s[|s| - |suffix|..] == suffix
  }

  predicate StartsWith(s: string, prefix: string) {
    prefix <= s
  }

  /** `name.replace(".rels", "")`. */
  function WithoutRels(name: string): string {
    if name == "" then ""
    else if StartsWith(name, ".rels") then WithoutRels(name[5..])
    else [name[0]] + WithoutRels(name[1..])
  }

  predicate IsRels(p: Part) {
    EndsWith(p.name, ".rels")
  }

  predicate IsSlideRels(p: Part) {
    p.dir == ["ppt", "slides", "_rels"] && IsRels(p)
  }

  /** The .rels files of charts, diagrams and drawings. */
  predicate IsResourceRels(p: Part) {
    IsRels(p) && p.dir in {["ppt", "charts", "_rels"], ["ppt", "diagrams", "_rels"], ["ppt", "drawings", "_rels"]}
  }

  predicate IsNotesRels(p: Part) {
    p.dir == ["ppt", "notesSlides", "_rels"] && IsRels(p)
  }

  /** The file a .rels file belongs to: one directory up, without the suffix. */
  function OwnerOf(rels: Part): Part {
    Part(if rels.dir == [] then [] else rels.dir[..|rels.dir| - 1], WithoutRels(rels.name))
  }

  predicate IsResource(p: Part) {
    p.dir in {["ppt", "media"], ["ppt", "embeddings"], ["ppt", "charts"], ["ppt", "diagrams"], ["ppt", "tags"],
              ["ppt", "drawings"], ["ppt", "ink"]}
  }

  predicate IsTheme(p: Part) {
    p.dir == ["ppt", "theme"] && StartsWith(p.name, "theme") && EndsWith(p.name, ".xml")
  }

  function ThemeRels(p: Part): Part {
    Part(["ppt", "theme", "_rels"], p.name + ".rels")
  }

  predicate IsNotes(p: Part) {
    p.dir == ["ppt", "notesSlides"] && EndsWith(p.name, ".xml")
  }

  /** The files the orphan scan looks at. */
  predicate Scanned(p: Part) {
    IsResource(p) || IsTheme(p) || IsNotes(p)
  }

  /** Every ".rels" is taken out, from left to right. */
  lemma {:induction false} WithoutRelsIs(a: string, b: string)
    requires forall i | 0 <= i < |a| :: !(".rels" <= (a + ".rels" + b)[i..])
    ensures WithoutRels(a + ".rels" + b) == a + WithoutRels(b)
  {
    var s := a + ".rels" + b;
    if a == "" {
      assert s == ".rels" + b && s[5..] == b;
    } else {
      var t := a[1..] + ".rels" + b;
      assert s[1..] == t && s[0..] == s;
      forall i | 0 <= i < |a[1..]| ensures !(".rels" <= t[i..]) {
        assert t[i..] == s[i + 1..];
      }
      WithoutRelsIs(a[1..], b);
      assert [a[0]] + (a[1..] + WithoutRels(b)) == a + WithoutRels(b);
    }
  }

  lemma {:induction false} NoRels(s: string)
    requires forall i | 0 <= i < |s| :: !(".rels" <= s[i..])
    ensures WithoutRels(s) == s
  {
    if s != "" {
      assert s[0..] == s;
      forall i | 0 <= i < |s[1..]| ensures !(".rels" <= s[1..][i..]) {
        assert s[1..][i..] == s[i + 1..];
      }
      NoRels(s[1..]);
    }
  }

  /** So the owner of `dir/_rels/x.xml.rels` is `dir/x.xml`. */
  lemma OwnerIs(dir: seq<string>, name: string)
    requires forall i | 0 <= i < |name| :: !(".rels" <= (name + ".rels")[i..])
    ensures OwnerOf(Part(dir + ["_rels"], name + ".rels")) == Part(dir, name)
  {
    assert name + ".rels" + "" == name + ".rels" && name + "" == name;
    WithoutRelsIs(name, "");
    assert (dir + ["_rels"])[..|dir|] == dir;
  }

  /** The scanned files by directory and name. */
  lemma ScannedIs(p: Part)
    ensures Scanned(p)
      <==> || (exists folder <- ["media", "embeddings", "charts", "diagrams", "tags", "drawings", "ink"] :: p.dir == ["ppt", folder])
           || (p.dir == ["ppt", "theme"] && |p.name| >= 5 && p.name[..5] == "theme" && |p.name| >= 4 && p.name[|p.name| - 4..] == ".xml")
           || (p.dir == ["ppt", "notesSlides"] && |p.name| >= 4 && p.name[|p.name| - 4..] == ".xml")
  {
    var folders := ["media", "embeddings", "charts", "diagrams", "tags", "drawings", "ink"];
    assert "media" in folders && "embeddings" in folders && "charts" in folders && "diagrams" in folders;
    assert "tags" in folders && "drawings" in folders && "ink" in folders;
  }

  /** The .rels files by directory and name. */
  lemma RelsAre(p: Part)
    ensures IsRels(p) <==> |p.name| >= 5 && p.name[|p.name| - 5..] == ".rels"
    ensures IsSlideRels(p) <==> p.dir == ["ppt", "slides", "_rels"] && IsRels(p)
    ensures IsNotesRels(p) <==> p.dir == ["ppt", "notesSlides", "_rels"] && IsRels(p)
    ensures IsResourceRels(p)
      <==> (p.dir == ["ppt", "charts", "_rels"] || p.dir == ["ppt", "diagrams", "_rels"] || p.dir == ["ppt", "drawings", "_rels"]) && IsRels(p)
    ensures ThemeRels(p) == Part(["ppt", "theme", "_rels"], p.name + ".rels")
  {
  }

  // ---------------------------------------------------------------- specification

  /** The files inside the package that the relationships of a .rels file point to. */
  type Links = Part -> set<Part>

  predicate Targets(links: Links, files: set<Part>, p: Part) {
    exists r <- files :: IsRels(r) && p in links(r)
  }

  predicate SlideTargets(links: Links, files: set<Part>, p: Part) {
    exists r <- files :: IsSlideRels(r) && p in links(r)
  }

  /** `remove_orphaned_rels_files`. */
  function OrphanedRels(links: Links, files: set<Part>): set<Part> {
    set r <- files | IsResourceRels(r) && !(OwnerOf(r) in files && SlideTargets(links, files, OwnerOf(r)))
  }

  function Unreferenced(files: set<Part>, referenced: set<Part>, scan: Part -> bool): set<Part> {
    set p <- files | scan(p) && p !in referenced
  }

  function Referenced(links: Links, files: set<Part>): set<Part> {
    set r <- files, p <- links(r) | IsRels(r) :: p
  }

  function WithRels(themes: set<Part>): set<Part> {
    themes + set t <- themes :: ThemeRels(t)
  }

  function OrphanedNotesRels(files: set<Part>): set<Part> {
    set r <- files | IsNotesRels(r) && OwnerOf(r) !in files
  }

  /** `remove_orphaned_files`: what is left of `files`. */
  function AfterOrphans(files: set<Part>, referenced: set<Part>): set<Part> {
    var files1 := files - Unreferenced(files, referenced, IsResource);
    var files2 := files1 - WithRels(Unreferenced(files1, referenced, IsTheme));
    var files3 := files2 - Unreferenced(files2, referenced, IsNotes);
    files3 - OrphanedNotesRels(files3)
  }

  /** One pass of the loop. */
  function Pass(links: Links, files: set<Part>): set<Part> {
    var kept := files - OrphanedRels(links, files);
    AfterOrphans(kept, Referenced(links, kept))
  }

  lemma PassShrinks(links: Links, files: set<Part>)
    ensures Pass(links, files) <= files
  {
  }

  function Cleaned(links: Links, files: set<Part>): set<Part>
    decreases |files|
  {
    var next := Pass(links, files);
    PassShrinks(links, files);
    if next == files then files
    else
      StrictSubsetSize(next, files);
      Cleaned(links, next)
  }

  // ---------------------------------------------------------------- what must stay

  /** A part of the original package that can stand on its own: every scanned file in it is
      the target of a .rels file in it, every .rels file of a chart, diagram or drawing has
      its owner in it, and a slide pointing to that owner, every .rels file of a notes slide
      has its owner in it, and the .rels file of an original theme comes with its theme. */
  ghost predicate SelfContained(links: Links, original: set<Part>, s: set<Part>) {
    && (forall p <- s | Scanned(p) :: Targets(links, s, p))
    && (forall r <- s | IsResourceRels(r) :: OwnerOf(r) in s && SlideTargets(links, s, OwnerOf(r)))
    && (forall r <- s | IsNotesRels(r) :: OwnerOf(r) in s)
    && (forall t <- original | IsTheme(t) && ThemeRels(t) in s :: t in s)
  }

  lemma TargetsGrow(links: Links, s: set<Part>, files: set<Part>, p: Part)
    requires s <= files
    ensures Targets(links, s, p) ==> Targets(links, files, p)
    ensures SlideTargets(links, s, p) ==> SlideTargets(links, files, p)
  {
  }

  /** A pass removes nothing that belongs to a self-contained part. */
  lemma PassKeeps(links: Links, original: set<Part>, files: set<Part>, s: set<Part>)
    requires SelfContained(links, original, s) && s <= files <= original
    ensures s <= Pass(links, files)
  {
    var kept := files - OrphanedRels(links, files);
    forall r | r in s ensures r in kept {
      if IsResourceRels(r) {
        TargetsGrow(links, s, files, OwnerOf(r));
      }
    }
    var referenced := Referenced(links, kept);
    forall p | p in s && Scanned(p) ensures p in referenced {
      TargetsGrow(links, s, kept, p);
      var r :| r in kept && IsRels(r) && p in links(r);
    }
    OrphansKeep(links, original, kept, referenced, s);
  }

  lemma OrphansKeep(links: Links, original: set<Part>, files: set<Part>, referenced: set<Part>, s: set<Part>)
    requires SelfContained(links, original, s) && s <= files <= original
    requires forall p <- s | Scanned(p) :: p in referenced
    ensures s <= AfterOrphans(files, referenced)
  {
    var files1 := files - Unreferenced(files, referenced, IsResource);
    assert s <= files1;
    var themes := Unreferenced(files1, referenced, IsTheme);
    var files2 := files1 - WithRels(themes);
    assert forall t | t in themes :: t !in s && ThemeRels(t) !in s;
    var files3 := files2 - Unreferenced(files2, referenced, IsNotes);
    assert s <= files3;
  }

  /** When a pass removes nothing, what is left is self-contained. */
  lemma FixedIsSelfContained(links: Links, original: set<Part>, files: set<Part>)
    requires Pass(links, files) == files
    requires forall t <- original | IsTheme(t) && ThemeRels(t) in files :: t in files
    ensures SelfContained(links, original, files)
  {
  }

  /** A theme only goes together with its .rels file. */
  ghost predicate ThemesWithRels(original: set<Part>, files: set<Part>) {
    forall t <- original | IsTheme(t) && ThemeRels(t) in files :: t in files
  }

  lemma PassKeepsThemes(links: Links, original: set<Part>, files: set<Part>)
    requires ThemesWithRels(original, files)
    ensures ThemesWithRels(original, Pass(links, files))
  {
  }

  lemma {:induction false} CleanedFrom(links: Links, original: set<Part>, files: set<Part>)
    requires files <= original && ThemesWithRels(original, files)
    ensures Cleaned(links, files) <= files && SelfContained(links, original, Cleaned(links, files))
    ensures forall s | s <= files && SelfContained(links, original, s) :: s <= Cleaned(links, files)
    decreases |files|
  {
    hide SelfContained, ThemesWithRels;
    var next := Pass(links, files);
    PassShrinks(links, files);
    forall s | s <= files && SelfContained(links, original, s) ensures s <= next {
      PassKeeps(links, original, files, s);
    }
    hide Pass;
    if next == files {
      FixedThemes(links, original, files);
    } else {
      StrictSubsetSize(next, files);
      PassKeepsThemes(links, original, files);
      CleanedFrom(links, original, next);
    }
  }

  lemma FixedThemes(links: Links, original: set<Part>, files: set<Part>)
    requires Pass(links, files) == files && ThemesWithRels(original, files)
    ensures SelfContained(links, original, files)
  {
    FixedIsSelfContained(links, original, files);
  }

  /** The main law: what the loop leaves is the greatest self-contained part of the package,
      so it removes no more than it must, whatever the order of the passes. */
  lemma CleanedIsGreatest(links: Links, original: set<Part>)
    ensures Cleaned(links, original) <= original && SelfContained(links, original, Cleaned(links, original))
    ensures forall s | s <= original && SelfContained(links, original, s) :: s <= Cleaned(links, original)
  {
    CleanedFrom(links, original, original);
  }

  /** In particular a scanned file survives exactly when some surviving .rels file points to
      it. */
  lemma ScannedSurvivesExactly(links: Links, original: set<Part>, p: Part)
    requires p in original && Scanned(p)
    ensures p in Cleaned(links, original) <==> Targets(links, Cleaned(links, original), p)
  {
    CleanedIsGreatest(links, original);
    var left := Cleaned(links, original);
    hide Cleaned;
    if Targets(links, left, p) {
      SelfContainedGrows(links, original, left, p);
    }
  }

  lemma SelfContainedGrows(links: Links, original: set<Part>, s: set<Part>, p: Part)
    requires SelfContained(links, original, s) && Scanned(p) && Targets(links, s, p)
    ensures SelfContained(links, original, s + {p})
  {
    forall q | q in s + {p} && Scanned(q) ensures Targets(links, s + {p}, q) {
      TargetsGrow(links, s, s + {p}, q);
    }
    forall r | r in s + {p} && IsResourceRels(r)
      ensures OwnerOf(r) in s + {p} && SlideTargets(links, s + {p}, OwnerOf(r))
    {
      TargetsGrow(links, s, s + {p}, OwnerOf(r));
    }
  }

  /** A file without which the rest could stand on its own, and with which it still could, is
      not removed. */
  lemma CouldStay(links: Links, original: set<Part>, p: Part)
    requires p in original
    ensures SelfContained(links, original, Cleaned(links, original) + {p}) ==> p in Cleaned(links, original)
  {
    hide SelfContained, Cleaned;
    CleanedIsGreatest(links, original);
  }

  /** The .rels file of a chart, diagram or drawing survives exactly when its owner does and a
      surviving slide points to it directly. */
  lemma ResourceRelsSurviveExactly(links: Links, original: set<Part>, r: Part)
    requires r in original && IsResourceRels(r)
    ensures var left := Cleaned(links, original);
      r in left <==> OwnerOf(r) in left && exists q <- left :: IsSlideRels(q) && OwnerOf(r) in links(q)
  {
    CleanedIsGreatest(links, original);
    var left := Cleaned(links, original);
    hide Cleaned;
    if OwnerOf(r) in left && SlideTargets(links, left, OwnerOf(r)) {
      StandsWith(links, original, left, r);
      CouldStay(links, original, r);
    }
  }

  /** That of a notes slide exactly when its owner does. */
  lemma NotesRelsSurviveExactly(links: Links, original: set<Part>, r: Part)
    requires r in original && IsNotesRels(r)
    ensures r in Cleaned(links, original) <==> OwnerOf(r) in Cleaned(links, original)
  {
    CleanedIsGreatest(links, original);
    var left := Cleaned(links, original);
    hide Cleaned;
    if OwnerOf(r) in left {
      StandsWith(links, original, left, r);
      CouldStay(links, original, r);
    }
  }

  /** That of a theme of the package exactly when the theme does. */
  lemma ThemeRelsSurviveExactly(links: Links, original: set<Part>, t: Part)
    requires t in original && IsTheme(t) && ThemeRels(t) in original
    ensures ThemeRels(t) in Cleaned(links, original) <==> t in Cleaned(links, original)
  {
    CleanedIsGreatest(links, original);
    var left := Cleaned(links, original);
    hide Cleaned;
    if t in left {
      assert forall u | IsTheme(u) && ThemeRels(u) == ThemeRels(t) :: u == t by {
        forall u | IsTheme(u) && ThemeRels(u) == ThemeRels(t) ensures u == t {
          SameStem(u.name, t.name);
        }
      }
      StandsWith(links, original, left, ThemeRels(t));
      CouldStay(links, original, ThemeRels(t));
    }
  }

  lemma SameStem(a: string, b: string)
    requires a + ".rels" == b + ".rels"
    ensures a == b
  {
    assert (a + ".rels")[..|a|] == a && (b + ".rels")[..|b|] == b;
  }

  /** Everything else survives. */
  lemma OthersSurvive(links: Links, original: set<Part>, p: Part)
    requires p in original && !Scanned(p) && !IsResourceRels(p) && !IsNotesRels(p)
    requires forall t <- original | IsTheme(t) :: p != ThemeRels(t)
    ensures p in Cleaned(links, original)
  {
    CleanedIsGreatest(links, original);
    var left := Cleaned(links, original);
    hide Cleaned;
    StandsWith(links, original, left, p);
    CouldStay(links, original, p);
  }

  lemma StandsWith(links: Links, original: set<Part>, s: set<Part>, p: Part)
    requires SelfContained(links, original, s) && !Scanned(p)
    requires IsResourceRels(p) ==> OwnerOf(p) in s && SlideTargets(links, s, OwnerOf(p))
    requires IsNotesRels(p) ==> OwnerOf(p) in s
    requires forall t <- original | IsTheme(t) && ThemeRels(t) == p :: t in s
    ensures SelfContained(links, original, s + {p})
  {
    hide IsResource, IsTheme, IsNotes, IsResourceRels, IsNotesRels, OwnerOf, ThemeRels, Scanned, Targets, SlideTargets;
    forall q | q in s + {p} && Scanned(q) ensures Targets(links, s + {p}, q) {
      TargetsGrow(links, s, s + {p}, q);
    }
    forall r | r in s + {p} && IsResourceRels(r)
      ensures OwnerOf(r) in s + {p} && SlideTargets(links, s + {p}, OwnerOf(r))
    {
      TargetsGrow(links, s, s + {p}, OwnerOf(r));
    }
  }

  /** The only files a run may remove. */
  predicate Removable(p: Part) {
    Scanned(p) || IsResourceRels(p) || IsNotesRels(p) || p.dir == ["ppt", "theme", "_rels"]
  }

  lemma PassRemovesOnly(links: Links, files: set<Part>, p: Part)
    requires p in files && p !in Pass(links, files)
    ensures Removable(p)
  {
    hide IsResource, IsTheme, IsNotes, IsResourceRels, IsNotesRels, IsRels, OwnerOf;
    var kept := files - OrphanedRels(links, files);
    if p in kept {
      var referenced := Referenced(links, kept);
      var files1 := kept - Unreferenced(kept, referenced, IsResource);
      var themes := Unreferenced(files1, referenced, IsTheme);
      var files2 := files1 - WithRels(themes);
      if p in files1 && p !in files2 {
        assert p in themes || exists t <- themes :: p == ThemeRels(t);
      }
    }
  }

  /** Nothing else is touched: a removed file is a scanned file or the .rels file of a
      chart, diagram, drawing, notes slide or theme. */
  lemma {:induction false} RemovesOnly(links: Links, files: set<Part>, p: Part)
    requires p in files && p !in Cleaned(links, files)
    ensures Removable(p)
    decreases |files|
  {
    hide Pass, Removable;
    var next := Pass(links, files);
    PassShrinks(links, files);
    if next != files {
      StrictSubsetSize(next, files);
      if p in next {
        RemovesOnly(links, next, p);
      } else {
        PassRemovesOnly(links, files, p);
      }
    }
  }

  // ---------------------------------------------------------------- the loop in place

  ghost predicate Accounts(original: set<Part>, files: set<Part>, removed: seq<Part>) {
    && files <= original && |files| + |removed| == |original|
    && forall p :: p in removed <==> p in original - files
  }

  lemma AccountsStep(original: set<Part>, files: set<Part>, removed: seq<Part>, p: Part)
    requires Accounts(original, files, removed) && p in files
    ensures Accounts(original, files - {p}, removed + [p])
  {
  }

  class Package {
    const links: Links
    var files: set<Part>
    var removed: seq<Part>

    constructor (links: Links, files: set<Part>)
      ensures this.links == links && this.files == files && removed == []
    {
      this.links, this.files, removed := links, files, [];
    }

    /** Every file that is gone has been listed once, and only those. */
    ghost predicate Accounted(original: set<Part>)
      reads this
    {
      Accounts(original, files, removed)
    }

    /** Unlink each file of `doomed`. */
    method Unlink(doomed: set<Part>, ghost original: set<Part>)
      requires doomed <= files && Accounted(original)
      modifies this
      ensures files == old(files) - doomed && Accounted(original)
      ensures |removed| == |old(removed)| + |doomed|
    {
      hide Accounts;
      var todo := doomed;
      while todo != {}
        invariant todo <= doomed && todo <= files && files == old(files) - (doomed - todo)
        invariant Accounted(original) && |removed| + |todo| == |old(removed)| + |doomed|
        decreases |todo|
      {
        var p :| p in todo;
        AccountsStep(original, files, removed, p);
        files := files - {p};
        removed := removed + [p];
        todo := todo - {p};
      }
    }

    /** `remove_orphaned_rels_files`. */
    method RemoveOrphanedRels(ghost original: set<Part>)
      requires Accounted(original)
      modifies this
      ensures files == old(files) - OrphanedRels(links, old(files)) && Accounted(original)
    {
      var slideReferenced := set r <- files, p <- links(r) | IsSlideRels(r) :: p;
      var doomed := set r <- files | IsResourceRels(r) && (OwnerOf(r) !in files || OwnerOf(r) !in slideReferenced);
      assert doomed == OrphanedRels(links, files);
      Unlink(doomed, original);
    }

    /** `get_referenced_files`. */
    method GetReferenced() returns (referenced: set<Part>)
      ensures referenced == Referenced(links, files)
    {
      referenced := {};
      var todo := files;
      while todo != {}
        invariant todo <= files && referenced == Referenced(links, files - todo)
        decreases |todo|
      {
        var r :| r in todo;
        assert files - (todo - {r}) == (files - todo) + {r};
        ReferencedStep(links, files - todo, r);
        if IsRels(r) {
          referenced := referenced + links(r);
        }
        todo := todo - {r};
      }
      assert files - todo == files;
    }

    method UnlinkUnreferenced(referenced: set<Part>, scan: Part -> bool, ghost original: set<Part>)
      requires Accounted(original)
      modifies this
      ensures files == old(files) - Unreferenced(old(files), referenced, scan) && Accounted(original)
    {
      hide Accounted;
      var found := set p <- files | scan(p) && p !in referenced;
      UnreferencedIs(files, referenced, scan, found);
      Unlink(found, original);
    }

    /** `remove_orphaned_files`. */
    method RemoveOrphanedFiles(referenced: set<Part>, ghost original: set<Part>)
      requires Accounted(original)
      modifies this
      ensures files == AfterOrphans(old(files), referenced) && Accounted(original)
    {
      hide IsResource, IsTheme, IsNotes, IsNotesRels, OwnerOf, ThemeRels, Accounted, Unreferenced;
      UnlinkUnreferenced(referenced, IsResource, original);
      var themes := set p <- files | IsTheme(p) && p !in referenced;
      UnreferencedIs(files, referenced, IsTheme, themes);
      ghost var before := files;
      Unlink(WithRels(themes) * files, original);
      assert files == before - WithRels(themes);
      UnlinkUnreferenced(referenced, IsNotes, original);
      var notesRels := set r <- files | IsNotesRels(r) && OwnerOf(r) !in files;
      assert notesRels == OrphanedNotesRels(files);
      Unlink(notesRels, original);
    }

    /** The loop of `clean_unused_files`. */
    method Clean()
      requires removed == []
      modifies this
      ensures files == Cleaned(links, old(files))
      ensures files <= old(files) && |files| + |removed| == |old(files)|
      ensures forall p :: p in removed <==> p in old(files) - files
    {
      ghost var original := files;
      while true
        invariant Accounted(original) && Cleaned(links, files) == Cleaned(links, original)
        decreases |files|
      {
        var before, count := files, |removed|;
        RemoveOrphanedRels(original);
        var referenced := GetReferenced();
        RemoveOrphanedFiles(referenced, original);
        assert files == Pass(links, before);
        PassShrinks(links, before);
        if |removed| == count {
          SameSize(files, before);
          break;
        }
        assert files != before;
        StrictSubsetSize(files, before);
      }
    }
  }

  lemma UnreferencedIs(files: set<Part>, referenced: set<Part>, scan: Part -> bool, found: set<Part>)
    requires forall p :: p in found <==> p in files && scan(p) && p !in referenced
    ensures found == Unreferenced(files, referenced, scan) && found <= files
  {
  }

  lemma SameSize(a: set<Part>, b: set<Part>)
    requires a <= b && |a| == |b|
    ensures a == b
  {
    if a != b {
      StrictSubsetSize(a, b);
    }
  }

  lemma ReferencedStep(links: Links, files: set<Part>, r: Part)
    ensures Referenced(links, files + {r}) == Referenced(links, files) + if IsRels(r) then links(r) else {}
  {
  }
}
