/** The loop of `processFiles` in fixMarkdown.js (lines 6-24): every Markdown file under
    Ressources is read, its links are normalised, and it is written back only when that
    changed it. */
module BatchFix {
  import opened Wrappers
  import LinkFix

  /** The Markdown files by path, and the paths written so far, in order. */
  datatype Tree = Tree(files: map<string, string>, written: seq<string>)

  /** One turn of the loop (fixMarkdown.js:13-19) for a file that could be read: the
      normalised text replaces the file and the path is recorded as written, but only when
      normalising changed the text. */
  function Step(t: Tree, path: string): (r: Tree)
    requires path in t.files
    ensures r.files.Keys == t.files.Keys
    ensures r.files[path] == LinkFix.FixMarkdownLinks(t.files[path])
    ensures forall q :: q in t.files && q != path ==> r.files[q] == t.files[q]
    ensures r.written == t.written + (if r.files[path] != t.files[path] then [path] else [])
  {
    var original := t.files[path];
    var fixed := LinkFix.FixMarkdownLinks(original);
    if fixed != original then Tree(t.files[path := fixed], t.written + [path]) else t
  }

  /** The whole loop (fixMarkdown.js:11-20) over the paths the glob returned. A file that
      cannot be read throws out of the loop; the handler only prints, so the run ends with
      the files as they are. */
  function FixAll(t: Tree, paths: seq<string>): Tree
    decreases |paths|
  {
    if |paths| == 0 then t
    else if paths[0] !in t.files then t
    else FixAll(Step(t, paths[0]), paths[1..])
  }

  /** Every path of the list names a file of `files`. */
  predicate AllPresent(files: map<string, string>, paths: seq<string>) {
    forall i :: 0 <= i < |paths| ==> paths[i] in files
  }

  /** Every listed file is already in normal form. */
  predicate AllFixed(files: map<string, string>, paths: seq<string>)
    requires AllPresent(files, paths)
  {
    forall i :: 0 <= i < |paths| ==> LinkFix.FixMarkdownLinks(files[paths[i]]) == files[paths[i]]
  }

  /** The listed files a run changes, in the order of the list. */
  function Changed(files: map<string, string>, paths: seq<string>): (r: seq<string>)
    requires AllPresent(files, paths)
    ensures forall k :: 0 <= k < |r| ==> r[k] in paths
    decreases |paths|
  {
    if |paths| == 0 then []
    else
      var rest := Changed(files, paths[1..]);
      if LinkFix.FixMarkdownLinks(files[paths[0]]) != files[paths[0]] then [paths[0]] + rest
      else rest
  }

  /** No file is created or removed, and a file the list does not name is left as it is. */
  lemma {:induction false} FixAllFrame(t: Tree, paths: seq<string>, path: string)
    ensures FixAll(t, paths).files.Keys == t.files.Keys
    ensures path !in paths ==> Get(FixAll(t, paths).files, path) == Get(t.files, path)
    decreases |paths|
  {
    if |paths| > 0 && paths[0] in t.files {
      FixAllFrame(Step(t, paths[0]), paths[1..], path);
    }
  }

  /** When every listed file can be read, each ends up as its normal form, even when the
      list names it twice (normalising is idempotent). */
  lemma {:induction false} FixAllFixes(t: Tree, paths: seq<string>)
    requires AllPresent(t.files, paths)
    ensures AllPresent(FixAll(t, paths).files, paths)
    ensures forall i :: 0 <= i < |paths| ==>
              FixAll(t, paths).files[paths[i]] == LinkFix.FixMarkdownLinks(t.files[paths[i]])
    decreases |paths|
  {
    FixAllFrame(t, paths, "");
    if |paths| > 0 {
      var p := paths[0];
      var rest := paths[1..];
      var next := Step(t, p);
      assert AllPresent(next.files, rest);
      FixAllFixes(next, rest);
      var g := FixAll(next, rest);
      assert FixAll(t, paths) == g;
      forall i | 0 <= i < |paths|
        ensures g.files[paths[i]] == LinkFix.FixMarkdownLinks(t.files[paths[i]])
      {
        if paths[i] != p {
          assert paths[i] == rest[i - 1];
        } else if p in rest {
          var j :| 0 <= j < |rest| && rest[j] == p;
          LinkFix.FixIdempotent(t.files[p]);
        } else {
          FixAllFrame(next, rest, p);
        }
      }
    }
  }

  /** When every listed file can be read and none is listed twice, the run writes exactly
      the files normalising changes, in order. */
  lemma {:induction false} FixAllWrites(t: Tree, paths: seq<string>)
    requires AllPresent(t.files, paths)
    requires Distinct(paths)
    ensures FixAll(t, paths).written == t.written + Changed(t.files, paths)
    decreases |paths|
  {
    if |paths| > 0 {
      var p := paths[0];
      var rest := paths[1..];
      var next := Step(t, p);
      forall i | 0 <= i < |rest| ensures rest[i] in next.files && next.files[rest[i]] == t.files[rest[i]] {
        assert rest[i] == paths[i + 1] && paths[i + 1] != p;
      }
      assert Distinct(rest);
      FixAllWrites(next, rest);
      ChangedSame(t.files, next.files, rest);
      var entry := if LinkFix.FixMarkdownLinks(t.files[p]) != t.files[p] then [p] else [];
      assert next.written == t.written + entry;
      assert Changed(t.files, paths) == entry + Changed(t.files, rest);
      assert FixAll(t, paths) == FixAll(next, rest);
      AppendAssoc(t.written, entry, Changed(t.files, rest));
    }
  }

  lemma AppendAssoc(a: seq<string>, b: seq<string>, c: seq<string>)
    ensures a + (b + c) == a + b + c
  {
  }



  /** Which files change depends only on the texts of the listed files. */
  lemma {:induction false} ChangedSame(f1: map<string, string>, f2: map<string, string>,
                                       paths: seq<string>)
    requires AllPresent(f1, paths) && AllPresent(f2, paths)
    requires forall i :: 0 <= i < |paths| ==> f1[paths[i]] == f2[paths[i]]
    ensures Changed(f1, paths) == Changed(f2, paths)
    decreases |paths|
  {
    if |paths| > 0 {
      ChangedSame(f1, f2, paths[1..]);
    }
  }

  /** A run over files that are all in normal form changes nothing and writes nothing. */
  lemma {:induction false} FixAllFixedPoint(t: Tree, paths: seq<string>)
    requires AllPresent(t.files, paths) && AllFixed(t.files, paths)
    ensures FixAll(t, paths) == t
    decreases |paths|
  {
    if |paths| > 0 {
      assert LinkFix.FixMarkdownLinks(t.files[paths[0]]) == t.files[paths[0]];
      assert FixAll(t, paths) == FixAll(t, paths[1..]);
      FixAllFixedPoint(t, paths[1..]);
    }
  }

  /** Running the fixer a second time over the same files changes nothing and writes
      nothing. */
  lemma SecondRunWritesNothing(t: Tree, paths: seq<string>)
    requires AllPresent(t.files, paths)
    ensures FixAll(FixAll(t, paths), paths) == FixAll(t, paths)
  {
    var g := FixAll(t, paths);
    FixAllFixes(t, paths);
    forall i | 0 <= i < |paths|
      ensures LinkFix.FixMarkdownLinks(g.files[paths[i]]) == g.files[paths[i]]
    {
      LinkFix.FixIdempotent(t.files[paths[i]]);
    }
    FixAllFixedPoint(g, paths);
  }

  /** Files that hold no broken link anywhere are neither changed nor written. */
  lemma NoLinksNoWrites(t: Tree, paths: seq<string>)
    requires AllPresent(t.files, paths)
    requires forall i, k :: 0 <= i < |paths| && 0 <= k < |t.files[paths[i]]| ==>
               LinkFix.MatchLink(t.files[paths[i]][k..]).None?
    ensures FixAll(t, paths) == t
  {
    forall i | 0 <= i < |paths|
      ensures LinkFix.FixMarkdownLinks(t.files[paths[i]]) == t.files[paths[i]]
    {
      LinkFix.FixNoMatch(t.files[paths[i]]);
    }
    FixAllFixedPoint(t, paths);
  }

  /** A file that cannot be read ends the run: the files before it are processed and the
      rest are not touched. */
  lemma {:induction false} FixAllStops(t: Tree, paths: seq<string>, k: nat)
    requires k < |paths| && AllPresent(t.files, paths[..k]) && paths[k] !in t.files
    ensures FixAll(t, paths) == FixAll(t, paths[..k])
    decreases k
  {
    if k == 0 {
      assert paths[..0] == [];
    } else {
      var next := Step(t, paths[0]);
      var rest := paths[1..];
      var before := rest[..k - 1];
      assert before == paths[..k][1..];
      forall i | 0 <= i < |before| ensures before[i] in next.files {
        assert before[i] == paths[..k][i + 1];
      }
      FixAllStops(next, rest, k - 1);
    }
  }

  /** The folder tree as the file system holds it while the loop runs. */
  class MarkdownTree {
    var files: map<string, string>
    var written: seq<string>

    /** The tree's current contents. */
    function State(): Tree
      reads this
    {
      Tree(files, written)
    }

    constructor (initial: map<string, string>)
      ensures State() == Tree(initial, [])
    {
      files := initial;
      written := [];
    }

    /** `processFiles` of fixMarkdown.js over the paths the glob returned: read, normalise,
        and write back only when the text changed. */
    method FixFiles(paths: seq<string>)
      modifies this
      ensures State() == FixAll(old(State()), paths)
    {
      var i := 0;
      while i < |paths|
        invariant 0 <= i <= |paths|
        invariant FixAll(old(State()), paths) == FixAll(State(), paths[i..])
      {
        var path := paths[i];
        if path !in files {
          return;
        }
        ghost var before := State();
        assert paths[i..][1..] == paths[i + 1..];
        assert FixAll(before, paths[i..]) == FixAll(Step(before, path), paths[i + 1..]);
        var originalText := files[path];
        var newText := LinkFix.FixMarkdownLinks(originalText);
        if newText != originalText {
          files := files[path := newText];
          written := written + [path];
        }
        assert State() == Step(before, path);
        i := i + 1;
      }
    }
  }
}
