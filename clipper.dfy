/** The loop of `processFiles` in index.js (lines 26-67): every stub note directly under
    Ressources is read, and according to what it holds and what fetching its URL gives, it
    is moved to ToProcessManually, or moved to Processed with the clipped note written
    under the same name to Result, or left where it is with a line in error.log. */
module Clipper {
  import opened Wrappers
  import Text
  import StubMetadata
  import opened Frontmatter
  import opened Pull

  /** A line of error.log: a stub whose clipping failed (its URL, its file and the error),
      or the message of the outer handler, which ends the run. */
  datatype LogEntry = Failed(url: string, file: string, error: PullError) | Aborted

  /** The Ressources folder: the stubs at its top level and the notes in its three
      sub-folders, each by file name, and the lines of error.log. */
  datatype Folder = Folder(stubs: map<string, string>, manual: map<string, string>,
                           processed: map<string, string>, result: map<string, string>,
                           log: seq<LogEntry>)

  /** What fetching a URL gives: the page, or the reason the request failed. */
  type Network = string -> Result<Page, string>

  /** What becomes of a stub with text `text`: no URL in it, its clipped note, or the URL
      and the error the clipping failed with. */
  datatype Fate = ToManual | Clipped(fileContent: string) | Kept(url: string, error: PullError)

  /** The branch index.js:32-63 takes for a stub. Every URL `extractURL` finds starts with
      `http`, so `!url` holds exactly when there is none. */
  function FateOf(text: string, net: Network, today: Day): Fate {
    match StubMetadata.ExtractURL(text)
    case None => ToManual
    case Some(url) =>
      match Clip(net(url), StubMetadata.ExtractDate(text), today)
      case Ok(c) => Clipped(c.fileContent)
      case Err(e) => Kept(url, e)
  }

  /** The decision for every stub text, on a given network and day. The lemmas below hold
      for any decision function, so they do not depend on how clipping works. */
  type Decision = string -> Fate

  function Decide(net: Network, today: Day): Decision {
    text => FateOf(text, net, today)
  }

  /** One turn of the loop for a stub that could be read, whose fate is `fate`: rename it
      into ToProcessManually, or rename it into Processed and write the note into Result
      under the same name, or append the failure to the log. A rename replaces a file of
      the same name in the target folder. */
  function Route(f: Folder, name: string, fate: Fate): Folder
    requires name in f.stubs
  {
    var text := f.stubs[name];
    match fate
    case ToManual => f.(stubs := f.stubs - {name}, manual := f.manual[name := text])
    case Clipped(content) =>
      f.(stubs := f.stubs - {name}, processed := f.processed[name := text],
         result := f.result[name := content])
    case Kept(url, e) => f.(log := f.log + [Failed(url, name, e)])
  }

  /** The whole loop over the file list: a stub that cannot be read throws out of the loop
      to the outer handler, which logs its message and ends the run. */
  function ProcessAll(f: Folder, files: seq<string>, decide: Decision): Folder
    decreases |files|
  {
    if |files| == 0 then f
    else if files[0] !in f.stubs then f.(log := f.log + [Aborted])
    else ProcessAll(Route(f, files[0], decide(f.stubs[files[0]])), files[1..], decide)
  }

  /** The failures of a run over stubs that can all be read, one per stub that stays, in
      the order of the file list. */
  function Failures(stubs: map<string, string>, files: seq<string>, decide: Decision)
    : seq<LogEntry>
    requires forall i :: 0 <= i < |files| ==> files[i] in stubs
    decreases |files|
  {
    if |files| == 0 then []
    else
      var rest := Failures(stubs, files[1..], decide);
      match decide(stubs[files[0]])
      case Kept(url, e) => [Failed(url, files[0], e)] + rest
      case _ => rest
  }

  /** The note a stub is clipped into carries, on its `clipped:` line, the date
      `extractDate` found in the stub, and today's date when it found none. A date found is
      never empty, so the `clippedDate` test of index.js:123 falls back only on a missing
      date. */
  lemma ClippedLineOfStub(text: string, net: Network, today: Day)
    requires FateOf(text, net, today).Clipped?
    ensures exists lines: seq<string> ::
              && |lines| >= 13 && lines[0] == "---"
              && lines[5] == "clipped: " + (match StubMetadata.ExtractDate(text)
                                            case Some(d) => d
                                            case None => ConvertDate(today))
              && FateOf(text, net, today).fileContent == Text.Join(lines, "\n")
  {
    var fetch := net(StubMetadata.ExtractURL(text).value);
    var clipped := StubMetadata.ExtractDate(text);
    if clipped.Some? {
      StubMetadata.ExtractDateFirst(text);
    }
    ClipClippedLine(fetch, clipped, today);
  }

  /** A file the run does not list is left as it is, in every folder. */
  lemma {:induction false} ProcessAllFrame(f: Folder, files: seq<string>, decide: Decision, name: string)
    requires name !in files
    ensures var g := ProcessAll(f, files, decide);
            && Get(g.stubs, name) == Get(f.stubs, name)
            && Get(g.manual, name) == Get(f.manual, name)
            && Get(g.processed, name) == Get(f.processed, name)
            && Get(g.result, name) == Get(f.result, name)
    decreases |files|
  {
    if |files| > 0 && files[0] in f.stubs {
      assert name != files[0];
      ProcessAllFrame(Route(f, files[0], decide(f.stubs[files[0]])), files[1..], decide, name);
    }
  }

  /** Where a stub with text `text` and fate `fate` ends up between folder `f` and folder
      `g`: without a URL it is in ToProcessManually; clipped, it is in Processed and its
      note in Result; otherwise it stays. The folders it is not moved into keep what they
      had under its name. */
  predicate Placed(f: Folder, g: Folder, name: string, text: string, fate: Fate) {
    match fate
    case ToManual =>
      && Get(g.stubs, name) == None && Get(g.manual, name) == Some(text)
      && Get(g.processed, name) == Get(f.processed, name)
      && Get(g.result, name) == Get(f.result, name)
    case Clipped(content) =>
      && Get(g.stubs, name) == None && Get(g.manual, name) == Get(f.manual, name)
      && Get(g.processed, name) == Some(text) && Get(g.result, name) == Some(content)
    case Kept(_, _) =>
      && Get(g.stubs, name) == Some(text) && Get(g.manual, name) == Get(f.manual, name)
      && Get(g.processed, name) == Get(f.processed, name)
      && Get(g.result, name) == Get(f.result, name)
  }

  /** Where each listed stub ends up when every stub can be read and none is listed twice. */
  lemma {:induction false} ProcessAllRoutes(f: Folder, files: seq<string>, decide: Decision)
    requires Distinct(files)
    requires forall i :: 0 <= i < |files| ==> files[i] in f.stubs
    ensures forall i :: 0 <= i < |files| ==>
              Placed(f, ProcessAll(f, files, decide), files[i], f.stubs[files[i]],
                     decide(f.stubs[files[i]]))
    decreases |files|
  {
    if |files| > 0 {
      var name := files[0];
      var f1 := Route(f, name, decide(f.stubs[name]));
      var rest := files[1..];
      var g := ProcessAll(f1, rest, decide);
      assert ProcessAll(f, files, decide) == g;
      forall i | 0 <= i < |rest| ensures rest[i] in f1.stubs && f1.stubs[rest[i]] == f.stubs[rest[i]] {
        assert rest[i] == files[i + 1] && files[i + 1] != name;
      }
      assert Distinct(rest);
      ProcessAllRoutes(f1, rest, decide);
      assert name !in rest by {
        forall i | 0 <= i < |rest| ensures rest[i] != name {
          assert rest[i] == files[i + 1];
        }
      }
      ProcessAllFrame(f1, rest, decide, name);
      RoutePlaced(f, name, decide(f.stubs[name]), g);
      forall i | 1 <= i < |files|
        ensures Placed(f, g, files[i], f.stubs[files[i]], decide(f.stubs[files[i]]))
      {
        assert files[i] == rest[i - 1] && files[i] != name;
        PlacedLater(f, f1, g, files[i], f.stubs[files[i]], decide(f.stubs[files[i]]));
      }
    }
  }

  /** The stub routed first is placed by its own turn, when the later turns leave its
      name alone. */
  lemma RoutePlaced(f: Folder, name: string, fate: Fate, g: Folder)
    requires name in f.stubs
    requires var f1 := Route(f, name, fate);
             && Get(g.stubs, name) == Get(f1.stubs, name)
             && Get(g.manual, name) == Get(f1.manual, name)
             && Get(g.processed, name) == Get(f1.processed, name)
             && Get(g.result, name) == Get(f1.result, name)
    ensures Placed(f, g, name, f.stubs[name], fate)
  {
  }

  /** A later stub is placed the same way from the folder before the first turn, since that
      turn does not touch its name. */
  lemma PlacedLater(f: Folder, f1: Folder, g: Folder, name: string, text: string, fate: Fate)
    requires Get(f1.manual, name) == Get(f.manual, name)
    requires Get(f1.processed, name) == Get(f.processed, name)
    requires Get(f1.result, name) == Get(f.result, name)
    requires Placed(f1, g, name, text, fate)
    ensures Placed(f, g, name, text, fate)
  {
  }

  /** A run over stubs that can all be read appends exactly their failures to the log. */
  lemma {:induction false} ProcessAllLog(f: Folder, files: seq<string>, decide: Decision)
    requires Distinct(files)
    requires forall i :: 0 <= i < |files| ==> files[i] in f.stubs
    ensures ProcessAll(f, files, decide).log == f.log + Failures(f.stubs, files, decide)
    decreases |files|
  {
    if |files| > 0 {
      var f1 := Route(f, files[0], decide(f.stubs[files[0]]));
      var rest := files[1..];
      forall i | 0 <= i < |rest| ensures rest[i] in f1.stubs && f1.stubs[rest[i]] == f.stubs[rest[i]] {
        assert rest[i] == files[i + 1] && files[i + 1] != files[0];
      }
      assert Distinct(rest);
      ProcessAllLog(f1, rest, decide);
      FailuresSame(f.stubs, f1.stubs, rest, decide);
      var fate := decide(f.stubs[files[0]]);
      var entry := if fate.Kept? then [Failed(fate.url, files[0], fate.error)] else [];
      assert f1.log == f.log + entry;
      assert Failures(f.stubs, files, decide) == entry + Failures(f.stubs, rest, decide);
      assert ProcessAll(f, files, decide) == ProcessAll(f1, rest, decide);
      assert f.log + (entry + Failures(f.stubs, rest, decide))
             == f.log + entry + Failures(f.stubs, rest, decide);
    }
  }

  /** The failures depend only on the texts of the listed stubs. */
  lemma {:induction false} FailuresSame(s1: map<string, string>, s2: map<string, string>,
                                        files: seq<string>, decide: Decision)
    requires forall i :: 0 <= i < |files| ==> files[i] in s1 && files[i] in s2
    requires forall i :: 0 <= i < |files| ==> s1[files[i]] == s2[files[i]]
    ensures Failures(s1, files, decide) == Failures(s2, files, decide)
    decreases |files|
  {
    if |files| > 0 {
      FailuresSame(s1, s2, files[1..], decide);
    }
  }

  /** A stub that cannot be read ends the run there: the stubs before it are processed,
      the log gets the outer handler's message, and the stubs after it are not touched. */
  lemma {:induction false} ProcessAllAborts(f: Folder, files: seq<string>, decide: Decision, k: nat)
    requires Distinct(files) && k < |files|
    requires forall i :: 0 <= i < k ==> files[i] in f.stubs
    requires files[k] !in f.stubs
    ensures var g := ProcessAll(f, files[..k], decide);
            ProcessAll(f, files, decide) == g.(log := g.log + [Aborted])
    decreases k
  {
    if k == 0 {
      assert files[..0] == [];
    } else {
      var f1 := Route(f, files[0], decide(f.stubs[files[0]]));
      var rest := files[1..];
      forall i | 0 <= i < k - 1 ensures rest[i] in f1.stubs {
        assert rest[i] == files[i + 1] && files[i + 1] != files[0];
      }
      assert rest[k - 1] == files[k] && files[k] != files[0];
      assert Distinct(rest);
      ProcessAllAborts(f1, rest, decide, k - 1);
      assert files[..k][1..] == rest[..k - 1];
    }
  }

  /** The folder as the file system holds it while the loop runs. */
  class Ressources {
    var stubs: map<string, string>
    var manual: map<string, string>
    var processed: map<string, string>
    var result: map<string, string>
    var log: seq<LogEntry>

    /** The folder's current contents. */
    function State(): Folder
      reads this
    {
      Folder(stubs, manual, processed, result, log)
    }

    constructor (initial: Folder)
      ensures State() == initial
    {
      stubs := initial.stubs;
      manual := initial.manual;
      processed := initial.processed;
      result := initial.result;
      log := initial.log;
    }

    /** One turn of the loop (index.js:29-63). Reports whether the stub could be read; when
        it could not, nothing has changed yet. */
    method ProcessStub(name: string, net: Network, today: Day) returns (read: bool)
      modifies this
      ensures read == (name in old(stubs))
      ensures read ==> State() == Route(old(State()), name, FateOf(old(stubs)[name], net, today))
      ensures !read ==> State() == old(State())
    {
      if name !in stubs {
        return false;
      }
      read := true;
      var originalText := stubs[name];
      var url := StubMetadata.ExtractURL(originalText);
      if url.None? {
        stubs := stubs - {name};
        manual := manual[name := originalText];
        return;
      }
      var clippedDate := StubMetadata.ExtractDate(originalText);
      var clipping := PullMarkDown(net(url.value), clippedDate, today);
      match clipping {
        case Ok(c) =>
          stubs := stubs - {name};
          processed := processed[name := originalText];
          result := result[name := c.fileContent];
        case Err(e) =>
          log := log + [Failed(url.value, name, e)];
      }
    }

    /** `processFiles` (index.js:23-67) over the file list the glob returned. */
    method ProcessFiles(files: seq<string>, net: Network, today: Day)
      modifies this
      ensures State() == ProcessAll(old(State()), files, Decide(net, today))
    {
      var i := 0;
      while i < |files|
        invariant 0 <= i <= |files|
        invariant ProcessAll(old(State()), files, Decide(net, today))
                  == ProcessAll(State(), files[i..], Decide(net, today))
      {
        assert files[i..][1..] == files[i + 1..];
        var read := ProcessStub(files[i], net, today);
        if !read {
          log := log + [Aborted];
          return;
        }
        i := i + 1;
      }
    }
  }
}
