/** One callout's work on flow files. */
module FlowCallout {
  import opened FlowFiles

  type Files = map<Path, seq<string>>

  // ---------- What a callout reads ----------

  /** The action a line asks for replaces what an earlier line asked for, if its file is there to send. */
  function ActionAfter(line: string, files: set<Path>, actions: map<Path, Action>): map<Path, Action> {
    if line == "" || Target(line) !in files then actions
    else if line[0] == '#' then actions[Target(line) := Truncate]
    else if line[0] in {'^', '-'} then actions[Target(line) := Delete]
    else actions
  }

  function ActionsAfter(lines: seq<string>, files: set<Path>, actions: map<Path, Action>): map<Path, Action>
    decreases |lines|
  {
    if lines == [] || lines[0] == "" then actions
    else ActionsAfter(lines[1..], files, ActionAfter(lines[0], files, actions))
  }

  function FlowActions(files: Files, flows: seq<Path>): map<Path, Action> {
    if flows == [] then map[]
    else
      var last := flows[|flows| - 1];
      var before := FlowActions(files, flows[..|flows| - 1]);
      if last in files then ActionsAfter(files[last], files.Keys, before) else before
  }

  // ---------- Which files are to be deleted ----------

  /** Line i is read, names p behind a '#', '^' or '-'. */
  ghost predicate MarkAt(lines: seq<string>, i: nat, p: Path) {
    && i < |lines| && (forall j :: 0 <= j <= i ==> lines[j] != "")
    && lines[i][0] in {'#', '^', '-'} && lines[i][1..] == p
  }

  ghost predicate Marks(lines: seq<string>, p: Path) {
    exists i: nat :: MarkAt(lines, i, p)
  }

  /** The last such line begins with '^' or '-'. */
  ghost predicate LastDeletes(lines: seq<string>, p: Path) {
    exists i: nat :: MarkAt(lines, i, p) && lines[i][0] != '#' && forall j: nat :: i < j ==> !MarkAt(lines, j, p)
  }

  /** The same of all the lines of all the flow files, in the order in which they are read. */
  ghost predicate AskedToDelete(files: Files, flows: seq<Path>, p: Path) {
    exists k: nat ::
      && k < |flows| && flows[k] in files && LastDeletes(files[flows[k]], p)
      && forall j :: k < j < |flows| && flows[j] in files ==> !Marks(files[flows[j]], p)
  }

  predicate ToDelete(actions: map<Path, Action>, p: Path) {
    p in actions && actions[p] == Delete
  }

  lemma {:induction false} MarkFirst(lines: seq<string>, p: Path)
    requires lines != [] && lines[0] != ""
    ensures Marks(lines, p) <==> MarkAt(lines, 0, p) || Marks(lines[1..], p)
    ensures LastDeletes(lines, p)
       <==> if Marks(lines[1..], p) then LastDeletes(lines[1..], p) else MarkAt(lines, 0, p) && lines[0][0] != '#'
  {
    forall i: nat | i > 0 ensures MarkAt(lines, i, p) <==> MarkAt(lines[1..], i - 1, p) { MarkLater(lines, i, p); }
    if i: nat :| MarkAt(lines[1..], i, p) { assert MarkAt(lines, i + 1, p); }
    if LastDeletes(lines[1..], p) {
      var i: nat :| && MarkAt(lines[1..], i, p) && lines[1..][i][0] != '#'
                    && forall j: nat :: i < j ==> !MarkAt(lines[1..], j, p);
      assert MarkAt(lines, i + 1, p) && lines[i + 1] == lines[1..][i];
    }
    if LastDeletes(lines, p) {
      var i: nat :| MarkAt(lines, i, p) && lines[i][0] != '#' && forall j: nat :: i < j ==> !MarkAt(lines, j, p);
      if i > 0 {
        assert lines[i] == lines[1..][i - 1];
        forall j: nat | i - 1 < j ensures !MarkAt(lines[1..], j, p) { assert !MarkAt(lines, j + 1, p); }
      }
    }
    hide MarkAt;
  }

  lemma {:induction false} MarkLater(lines: seq<string>, i: nat, p: Path)
    requires lines != [] && lines[0] != "" && i > 0
    ensures MarkAt(lines, i, p) <==> MarkAt(lines[1..], i - 1, p)
  {
    if MarkAt(lines, i, p) { assert forall j :: 0 <= j <= i - 1 ==> lines[1..][j] == lines[j + 1]; }
    if MarkAt(lines[1..], i - 1, p) { assert forall j :: 1 <= j <= i ==> lines[j] == lines[1..][j - 1]; }
  }

  /** What the last mark of a flow file asks for a file that is there; without marks it is left to the files before. */
  lemma {:induction false} MarksDecide(lines: seq<string>, files: set<Path>, actions: map<Path, Action>, p: Path)
    requires p in files
    ensures ToDelete(ActionsAfter(lines, files, actions), p)
       <==> if Marks(lines, p) then LastDeletes(lines, p) else ToDelete(actions, p)
    decreases |lines|
  {
    if lines == [] || lines[0] == "" {
      assert forall i: nat :: !MarkAt(lines, i, p);
    } else {
      MarkFirst(lines, p);
      MarksDecide(lines[1..], files, ActionAfter(lines[0], files, actions), p);
      OneMark(lines, files, actions, p);
      hide MarkAt, Marks, LastDeletes, ActionAfter;
    }
  }

  lemma {:induction false} OneMark(lines: seq<string>, files: set<Path>, actions: map<Path, Action>, p: Path)
    requires lines != [] && lines[0] != "" && p in files
    ensures ToDelete(ActionAfter(lines[0], files, actions), p)
       <==> if MarkAt(lines, 0, p) then lines[0][0] != '#' else ToDelete(actions, p)
  {
  }

  /** A file that is there is to be deleted exactly if the last of all marks on it asks for that. */
  lemma {:induction false} LastMarkDecides(files: Files, flows: seq<Path>, p: Path)
    requires p in files
    ensures ToDelete(FlowActions(files, flows), p) <==> AskedToDelete(files, flows, p)
    decreases |flows|
  {
    if flows != [] {
      var n := |flows| - 1;
      LastMarkDecides(files, flows[..n], p);
      if flows[n] in files { MarksDecide(files[flows[n]], files.Keys, FlowActions(files, flows[..n]), p); }
      LastFlow(files, flows, p);
      hide Marks, LastDeletes, ActionsAfter, AskedToDelete, ToDelete;
    }
  }

  lemma {:induction false} LastFlow(files: Files, flows: seq<Path>, p: Path)
    requires flows != []
    ensures var n := |flows| - 1;
      AskedToDelete(files, flows, p)
      <==> if flows[n] in files && Marks(files[flows[n]], p) then LastDeletes(files[flows[n]], p)
           else AskedToDelete(files, flows[..n], p)
  {
    var n := |flows| - 1;
    if flows[n] in files && LastDeletes(files[flows[n]], p) { DeletesMarks(files[flows[n]], p); }
    hide Marks, LastDeletes;
    if AskedToDelete(files, flows, p) {
      var k: nat :| && k < |flows| && flows[k] in files && LastDeletes(files[flows[k]], p)
                    && forall j :: k < j < |flows| && flows[j] in files ==> !Marks(files[flows[j]], p);
      if k < n { assert flows[..n][k] == flows[k]; }
    }
    if AskedToDelete(files, flows[..n], p) && !(flows[n] in files && Marks(files[flows[n]], p)) {
      var k: nat :| && k < n && flows[..n][k] in files && LastDeletes(files[flows[..n][k]], p)
                    && forall j :: k < j < n && flows[..n][j] in files ==> !Marks(files[flows[..n][j]], p);
      forall j | k < j < |flows| && flows[j] in files ensures !Marks(files[flows[j]], p) {
        if j < n { assert flows[..n][j] == flows[j]; }
      }
    }
  }

  lemma {:induction false} DeletesMarks(lines: seq<string>, p: Path)
    requires LastDeletes(lines, p)
    ensures Marks(lines, p)
  {
  }

  // ---------- What is left of the files ----------

  predicate Doomed(actions: map<Path, Action>, sent: set<Path>, p: Path) {
    p in sent && p in actions && actions[p] == Delete
  }

  /** Flow files that list nothing unsent are gone, as are sent files that were to be deleted;
      other flow files are rewritten. */
  function FilesAfter(files: Files, flows: set<Path>, actions: map<Path, Action>, sent: set<Path>): Files {
    map p | p in files && !Doomed(actions, sent, p) && !(p in flows && Left(files[p], sent) == {})
      :: if p in flows then Rewrite(files[p], Left(files[p], sent)) else files[p]
  }

  function Without(s: seq<Path>, x: Path): seq<Path> {
    if s == [] then [] else (if s[0] == x then [] else [s[0]]) + Without(s[1..], x)
  }

  class Callout {
    var files: Files
    var contents: map<Path, seq<Path>>
    var actions: map<Path, Action>
    var sent: seq<Path>

    constructor (files: Files)
      ensures this.files == files && contents == map[] && actions == map[] && sent == []
    {
      this.files, contents, actions, sent := files, map[], map[], [];
    }

    /** Lists the files to send; a file that is not there is listed all the same, but nothing is done to it later. */
    method ReadFlow(flo: Path)
      modifies this`contents, this`actions
      ensures flo !in files ==> contents == old(contents) && actions == old(actions)
      ensures flo in files ==> contents == WithMore(old(contents), flo, Listed(files[flo]))
      ensures flo in files ==> actions == ActionsAfter(files[flo], files.Keys, old(actions))
    {
      if flo !in files { return; }
      if flo !in contents { contents := contents[flo := []]; }
      ghost var first := contents;
      var lines := files[flo];
      while lines != [] && lines[0] != ""
        invariant flo in contents && flo in first && files == old(files)
        invariant contents == first[flo := contents[flo]]
        invariant contents[flo] + Listed(lines) == first[flo] + Listed(files[flo])
        invariant ActionsAfter(lines, files.Keys, actions) == ActionsAfter(files[flo], files.Keys, old(actions))
        decreases |lines|
      {
        ReadStep(lines, files.Keys, actions, contents[flo]);
        hide Listed, ActionsAfter, ActionAfter, Skipped, Target;
        ReadLine(flo, lines[0]);
        lines := lines[1..];
      }
      NoneLeft(lines, files.Keys, actions, contents[flo]);
    }

    method ReadLine(flo: Path, line: string)
      requires line != "" && flo in contents
      modifies this`contents, this`actions
      ensures contents == old(contents)[flo := old(contents)[flo] + if Skipped(line) then [] else [Target(line)]]
      ensures actions == ActionAfter(line, files.Keys, old(actions))
    {
      match line[0] {
        case '#' =>
          if line[1..] in files { actions := actions[line[1..] := Truncate]; }
          contents := contents[flo := contents[flo] + [line[1..]]];
        case '^' | '-' =>
          if line[1..] in files { actions := actions[line[1..] := Delete]; }
          contents := contents[flo := contents[flo] + [line[1..]]];
        case '~' | '!' =>
          assert contents[flo] == contents[flo] + [];
        case '@' =>
          contents := contents[flo := contents[flo] + [line[1..]]];
        case _ =>
          contents := contents[flo := contents[flo] + [line]];
      }
    }

    /** A file was sent: it is crossed off everywhere, and flow files with nothing left are removed. */
    method TxCallback(fname: Path)
      modifies this`contents, this`files
      ensures contents == CrossedOff(old(contents), old(files).Keys, fname)
      ensures files == WithoutEmpty(old(files), contents)
    {
      hide CrossedOff, WithoutEmpty, TxContents, TxFiles, Without;
      ghost var first, files0 := contents, files;
      var keys := contents.Keys;
      TxStart(first, files0, fname);
      while keys != {}
        invariant keys <= first.Keys && contents.Keys == first.Keys
        invariant contents == TxContents(first, files0.Keys, fname, keys)
        invariant files == TxFiles(first, files0, fname, keys)
        decreases |keys|
      {
        var flo :| flo in keys;
        TxStep(first, files0, fname, keys, flo);
        TxStepFiles(first, files0, fname, keys, flo);
        if flo in files {
          var names := CrossOff(contents[flo], fname);
          contents := contents[flo := names];
          if names == [] { files := files - {flo}; }
        }
        keys := keys - {flo};
      }
      TxEnd(first, files0, fname);
    }

    /** The end of the callout: acts on what was sent and writes the rest of each flow file back. */
    method CalloutDone()
      modifies this`files
      ensures files == DoneFiles(old(files), contents, actions, Names(sent))
    {
      Act();
      ghost var acted := files;
      WriteBack();
      RemoveDone();
      DonePhases(old(files), contents, actions, Names(sent));
    }

    method Act()
      modifies this`files
      ensures files == Acted(old(files), actions, Names(sent))
    {
      var i: nat := 0;
      while i < |sent|
        invariant i <= |sent| && sent == old(sent) && actions == old(actions)
        invariant files == Acted(old(files), actions, Names(sent[..i]))
      {
        NamesNext(sent, i);
        if sent[i] in actions {
          match actions[sent[i]] {
            case Truncate => // asked of a file object that was not opened, which the host refuses
            case Delete => files := files - {sent[i]};
          }
        }
        i := i + 1;
      }
      assert sent[..|sent|] == sent;
    }

    method WriteBack()
      modifies this`files
      ensures files == WrittenBack(old(files), contents, contents.Keys)
    {
      hide Rewrite, WrittenBack, Names;
      var keys := contents.Keys;
      WriteStart(files, contents);
      while keys != {}
        invariant keys <= contents.Keys && contents == old(contents)
        invariant files == WrittenBack(old(files), contents, contents.Keys - keys)
        decreases |keys|
      {
        var flo :| flo in keys;
        WriteStep(old(files), contents, keys, flo);
        if |contents[flo]| > 0 && flo in files {
          var lines := RewriteLines(files[flo], contents[flo]);
          files := files[flo := lines];
        }
        keys := keys - {flo};
      }
      assert contents.Keys - keys == contents.Keys;
    }

    method RemoveDone()
      modifies this`files
      ensures files == WithoutEmpty(old(files), contents)
    {
      var keys := contents.Keys;
      while keys != {}
        invariant keys <= contents.Keys && contents == old(contents)
        invariant files == map p | p in old(files) && !(p in contents && p !in keys && contents[p] == []) ::
          old(files)[p]
        decreases |keys|
      {
        var flo :| flo in keys;
        if flo in files && contents[flo] == [] { files := files - {flo}; }
        keys := keys - {flo};
      }
    }
  }

  method CrossOff(names: seq<Path>, fname: Path) returns (r: seq<Path>)
    ensures r == Without(names, fname)
  {
    r := names;
    while fname in r
      invariant Without(r, fname) == Without(names, fname)
      decreases |r|
    {
      var j: nat := IndexOf(r, fname);
      WithoutSplice(r, j);
      r := r[..j] + r[j + 1..];
    }
    WithoutNone(r, fname);
  }

  method IndexOf(s: seq<Path>, x: Path) returns (j: nat)
    requires x in s
    ensures j < |s| && s[j] == x
  {
    j := 0;
    while s[j] != x
      invariant j < |s| && x in s[j..]
      decreases |s| - j
    {
      j := j + 1;
    }
  }

  method RewriteLines(lines: seq<string>, left: seq<Path>) returns (r: seq<string>)
    ensures r == Rewrite(lines, Names(left))
  {
    r := [];
    var i: nat := 0;
    while i < |lines|
      invariant i <= |lines| && r == Rewrite(lines[..i], Names(left))
    {
      var line := lines[i];
      RewriteNext(lines, i, Names(left));
      if line != "" && line[0] in {'#', '^', '-', '@'} {
        r := r + [if line[1..] !in left then "~" + line[1..] else line];
      } else if line != "" && line[0] in {'~', '!'} {
        r := r + [line];
      } else {
        r := r + [if line !in left then "~" + line else line];
      }
      i := i + 1;
    }
    assert lines[..|lines|] == lines;
  }

  lemma {:induction false} RewriteNext(lines: seq<string>, i: nat, left: set<Path>)
    requires i < |lines|
    ensures Rewrite(lines[..i + 1], left) == Rewrite(lines[..i], left) + [Rewritten(lines[i], left)]
  {
  }

  // ---------- The steps, on values ----------

  function WithMore(contents: map<Path, seq<Path>>, flo: Path, names: seq<Path>): map<Path, seq<Path>> {
    contents[flo := (if flo in contents then contents[flo] else []) + names]
  }

  function CrossedOff(contents: map<Path, seq<Path>>, there: set<Path>, fname: Path): map<Path, seq<Path>> {
    map f | f in contents :: if f in there then Without(contents[f], fname) else contents[f]
  }

  function WithoutEmpty(files: Files, contents: map<Path, seq<Path>>): Files {
    map p | p in files && !(p in contents && contents[p] == []) :: files[p]
  }

  function Acted(files: Files, actions: map<Path, Action>, sent: set<Path>): Files {
    map p | p in files && !Doomed(actions, sent, p) :: files[p]
  }

  function WrittenBack(files: Files, contents: map<Path, seq<Path>>, keys: set<Path>): Files
    requires keys <= contents.Keys
  {
    map p | p in files :: if p in keys && contents[p] != [] then Rewrite(files[p], Names(contents[p])) else files[p]
  }

  function DoneFiles(files: Files, contents: map<Path, seq<Path>>, actions: map<Path, Action>, sent: set<Path>): Files {
    map p | p in files && !Doomed(actions, sent, p) && !(p in contents && contents[p] == [])
      :: if p in contents then Rewrite(files[p], Names(contents[p])) else files[p]
  }

  lemma {:induction false} DonePhases(
    files: Files, contents: map<Path, seq<Path>>, actions: map<Path, Action>, sent: set<Path>)
    ensures WithoutEmpty(WrittenBack(Acted(files, actions, sent), contents, contents.Keys), contents)
         == DoneFiles(files, contents, actions, sent)
  {
    hide Rewrite, Doomed, Names;
  }

  /** The lists when all flow files but those in todo are dealt with. */
  function TxContents(
    first: map<Path, seq<Path>>, there: set<Path>, fname: Path, todo: set<Path>): map<Path, seq<Path>> {
    map f | f in first :: if f !in todo && f in there then Without(first[f], fname) else first[f]
  }

  /** And the files. */
  function TxFiles(first: map<Path, seq<Path>>, files: Files, fname: Path, todo: set<Path>): Files {
    map p | p in files && !(p in first && p !in todo && Without(first[p], fname) == []) :: files[p]
  }

  lemma {:induction false} TxStart(first: map<Path, seq<Path>>, files: Files, fname: Path)
    ensures TxContents(first, files.Keys, fname, first.Keys) == first
    ensures TxFiles(first, files, fname, first.Keys) == files
  {
    hide Without;
  }

  lemma {:induction false} TxEnd(first: map<Path, seq<Path>>, files: Files, fname: Path)
    ensures TxContents(first, files.Keys, fname, {}) == CrossedOff(first, files.Keys, fname)
    ensures TxFiles(first, files, fname, {}) == WithoutEmpty(files, CrossedOff(first, files.Keys, fname))
  {
    hide Without;
  }

  lemma {:induction false} TxStep(first: map<Path, seq<Path>>, files: Files, fname: Path, todo: set<Path>, flo: Path)
    requires flo in todo && todo <= first.Keys
    ensures var contents, left := TxContents(first, files.Keys, fname, todo), Without(first[flo], fname);
            && flo in contents && contents[flo] == first[flo]
            && TxContents(first, files.Keys, fname, todo - {flo})
                 == if flo in files then contents[flo := left] else contents
  {
    hide Without;
  }

  lemma {:induction false} TxStepFiles(
    first: map<Path, seq<Path>>, files: Files, fname: Path, todo: set<Path>, flo: Path)
    requires flo in todo && todo <= first.Keys
    ensures var there, left := TxFiles(first, files, fname, todo), Without(first[flo], fname);
            && (flo in there <==> flo in files)
            && TxFiles(first, files, fname, todo - {flo}) == if flo in files && left == [] then there - {flo} else there
  {
    hide Without;
  }

  lemma {:induction false} ReadStep(lines: seq<string>, there: set<Path>, actions: map<Path, Action>, names: seq<Path>)
    requires lines != [] && lines[0] != ""
    ensures names + Listed(lines) == names + (if Skipped(lines[0]) then [] else [Target(lines[0])]) + Listed(lines[1..])
    ensures ActionsAfter(lines, there, actions)
         == ActionsAfter(lines[1..], there, ActionAfter(lines[0], there, actions))
  {
    hide ActionAfter, Target;
    var first := if Skipped(lines[0]) then [] else [Target(lines[0])];
    assert Listed(lines) == first + Listed(lines[1..]);
    hide Listed;
    assert names + (first + Listed(lines[1..])) == names + first + Listed(lines[1..]);
  }

  lemma {:induction false} NoneLeft(lines: seq<string>, there: set<Path>, actions: map<Path, Action>, names: seq<Path>)
    requires lines == [] || lines[0] == ""
    ensures names + Listed(lines) == names && ActionsAfter(lines, there, actions) == actions
  {
  }

  lemma {:induction false} WriteStart(files: Files, contents: map<Path, seq<Path>>)
    ensures contents.Keys - contents.Keys == {} && WrittenBack(files, contents, contents.Keys - contents.Keys) == files
  {
    hide Rewrite;
  }

  lemma {:induction false} WriteStep(files: Files, contents: map<Path, seq<Path>>, todo: set<Path>, flo: Path)
    requires flo in todo && todo <= contents.Keys
    ensures var now := WrittenBack(files, contents, contents.Keys - todo);
            && (flo in now <==> flo in files) && (flo in files ==> now[flo] == files[flo])
            && WrittenBack(files, contents, contents.Keys - (todo - {flo}))
            == if contents[flo] != [] && flo in files then now[flo := Rewrite(files[flo], Names(contents[flo]))]
              else now
  {
    hide Rewrite, Names;
  }

  lemma {:induction false} NamesNext(s: seq<Path>, i: nat)
    requires i < |s|
    ensures Names(s[..i + 1]) == Names(s[..i]) + {s[i]}
  {
    assert s[..i + 1] == s[..i] + [s[i]];
  }

  lemma {:induction false} WithoutSplice(s: seq<Path>, j: nat)
    requires j < |s|
    ensures Without(s[..j] + s[j + 1..], s[j]) == Without(s, s[j])
    decreases |s|
  {
    if j > 0 {
      WithoutSplice(s[1..], j - 1);
      assert (s[..j] + s[j + 1..])[1..] == s[1..][..j - 1] + s[1..][j..];
    } else {
      assert s[..j] + s[j + 1..] == s[1..];
    }
  }

  lemma {:induction false} WithoutNone(s: seq<Path>, x: Path)
    requires x !in s
    ensures Without(s, x) == s
  {
    if s != [] { WithoutNone(s[1..], x); }
  }

  lemma {:induction false} WithoutNames(s: seq<Path>, x: Path)
    ensures Names(Without(s, x)) == Names(s) - {x}
  {
    if s == [] {
      assert Names(Without(s, x)) == {} == Names(s);
    } else {
      WithoutNames(s[1..], x);
      var rest := Without(s[1..], x);
      assert Without(s, x) == (if s[0] == x then [] else [s[0]]) + rest;
      NamesCons(s[0], s[1..]);
      NamesCons(s[0], rest);
      assert s == [s[0]] + s[1..];
    }
  }

  lemma {:induction false} NamesCons(x: Path, s: seq<Path>)
    ensures Names([x] + s) == {x} + Names(s) && [] + s == s
  {
  }

  // ---------- A whole callout ----------

  /** Reads the flow files, has some files sent, and finishes. */
  method Run(files: Files, flows: seq<Path>, sends: seq<Path>) returns (after: Files)
    ensures after == FilesAfter(files, Names(flows), FlowActions(files, flows), Names(sends))
    ensures after.Keys <= files.Keys && forall p :: p in files ==> Fate(files, flows, sends, p, after)
  {
    Fates(files, flows, sends);
    hide *;
    var c := new Callout(files);
    var i: nat := 0;
    NothingRead(files);
    while i < |flows|
      invariant i <= |flows| && c.files == files && c.sent == []
      invariant Tracks(files, Names(flows[..i]), {}, false, c.contents, c.files)
      invariant c.actions == FlowActions(files, flows[..i])
    {
      var flo := flows[i];
      ReadTracks(files, flows, i, c.contents, c.actions);
      c.ReadFlow(flo);
      i := i + 1;
    }
    WholeSeq(flows);
    i := 0;
    NoNames(sends);
    while i < |sends|
      invariant i <= |sends| && c.sent == sends[..i]
      invariant Tracks(files, Names(flows), Names(sends[..i]), i > 0, c.contents, c.files)
      invariant c.actions == FlowActions(files, flows)
    {
      NamesNext(sends, i);
      TxTracks(files, Names(flows), Names(sends[..i]), i > 0, sends[i], c.contents, c.files);
      c.sent := c.sent + [sends[i]];
      c.TxCallback(sends[i]);
      NextPrefix(sends, i);
      i := i + 1;
    }
    WholeSeq(sends);
    DoneTracks(files, Names(flows), Names(sends), i > 0, c.contents, c.actions, c.files);
    c.CalloutDone();
    after := c.files;
  }

  /** The lists hold what each flow file names and was not sent; files are only missing if their list is empty. */
  ghost predicate Tracks(
    files0: Files, flows: set<Path>, sent: set<Path>, any: bool, contents: map<Path, seq<Path>>, files: Files) {
    && contents.Keys == flows * files0.Keys
    && (forall f :: f in contents ==> Names(contents[f]) == Left(files0[f], sent))
    && files == map p | p in files0 && !(any && p in contents && contents[p] == []) :: files0[p]
  }

  lemma {:induction false} NothingRead(files: Files)
    ensures forall flows: seq<Path> ::
      Tracks(files, Names(flows[..0]), {}, false, map[], files) && FlowActions(files, flows[..0]) == map[]
  {
  }

  lemma {:induction false} WholeSeq(s: seq<Path>)
    ensures s[..|s|] == s
  {
  }

  lemma {:induction false} NoNames(s: seq<Path>)
    ensures Names(s[..0]) == {} && s[..0] == []
  {
  }

  lemma {:induction false} NextPrefix(s: seq<Path>, i: nat)
    requires i < |s|
    ensures s[..i + 1] == s[..i] + [s[i]]
  {
  }

  lemma {:induction false} NamesConcat(s: seq<Path>, t: seq<Path>)
    ensures Names(s + t) == Names(s) + Names(t)
  {
  }

  lemma {:induction false} ReadTracks(
    files: Files, flows: seq<Path>, i: nat, contents: map<Path, seq<Path>>, actions: map<Path, Action>)
    requires i < |flows| && Tracks(files, Names(flows[..i]), {}, false, contents, files)
    ensures flows[i] !in files ==> Tracks(files, Names(flows[..i + 1]), {}, false, contents, files)
    ensures flows[i] !in files ==> FlowActions(files, flows[..i + 1]) == FlowActions(files, flows[..i])
    ensures flows[i] in files ==>
      Tracks(files, Names(flows[..i + 1]), {}, false, WithMore(contents, flows[i], Listed(files[flows[i]])), files)
    ensures flows[i] in files ==>
      FlowActions(files, flows[..i + 1]) == ActionsAfter(files[flows[i]], files.Keys, FlowActions(files, flows[..i]))
  {
    hide Listed, ActionsAfter;
    NamesNext(flows, i);
    assert flows[..i + 1][..i] == flows[..i];
    if flows[i] in files {
      var names := Listed(files[flows[i]]);
      hide Names, FlowActions;
      MoreNames(contents, flows[i], names, files[flows[i]]);
    }
  }

  lemma {:induction false} MoreNames(contents: map<Path, seq<Path>>, flo: Path, names: seq<Path>, lines: seq<string>)
    requires names == Listed(lines) && (flo in contents ==> Names(contents[flo]) == Left(lines, {}))
    ensures Names(WithMore(contents, flo, names)[flo]) == Left(lines, {})
  {
    hide Listed;
    NamesConcat(if flo in contents then contents[flo] else [], names);
    assert flo !in contents ==> Names([]) == {};
    assert Names(names) == Left(lines, {});
  }

  lemma {:induction false} TxTracks(
    files0: Files, flows: set<Path>, sent: set<Path>, any: bool, fname: Path, contents: map<Path, seq<Path>>,
    files: Files)
    requires Tracks(files0, flows, sent, any, contents, files)
    ensures var c := CrossedOff(contents, files.Keys, fname);
            Tracks(files0, flows, sent + {fname}, true, c, WithoutEmpty(files, c))
  {
    hide Names, Listed, Without;
    var c := CrossedOff(contents, files.Keys, fname);
    forall f | f in c ensures Names(c[f]) == Left(files0[f], sent + {fname}) {
      WithoutNames(contents[f], fname);
      if f !in files { NamesOfNone(); }
    }
    forall f | f in contents && f !in files ensures c[f] == [] { }
  }

  lemma {:induction false} NamesOfNone()
    ensures Names([]) == {}
  {
  }

  lemma {:induction false} NamesEmpty(s: seq<Path>)
    ensures Names(s) == {} <==> s == []
  {
    if s != [] { assert s[0] in Names(s); }
  }

  lemma {:induction false} DoneTracks(files0: Files, flows: set<Path>, sent: set<Path>, any: bool,
                                      contents: map<Path, seq<Path>>, actions: map<Path, Action>, files: Files)
    requires Tracks(files0, flows, sent, any, contents, files)
    ensures DoneFiles(files, contents, actions, sent) == FilesAfter(files0, flows, actions, sent)
  {
    hide Names, Listed, Left, Rewrite, Doomed;
    forall f | f in contents ensures contents[f] == [] <==> Left(files0[f], sent) == {} {
      NamesEmpty(contents[f]);
    }
  }

  /** The name behind the mark, or all of the line. */
  ghost predicate Bears(line: string, x: Path) {
    x == if line != "" && line[0] in {'#', '^', '-', '@'} then line[1..] else line
  }

  /** Every line is there, in its place. One that was dealt with before is as it was, and so is one whose name is still
      to be sent; any other is its name behind a '~'. */
  ghost predicate MarkedLines(before: seq<string>, sends: seq<Path>, after: seq<string>) {
    && |after| == |before|
    && forall i, x :: 0 <= i < |before| && Bears(before[i], x) ==>
      after[i] == if || (before[i] != "" && before[i][0] in {'~', '!'})
                     || (NamedIn(before, x) && x !in sends)
                  then before[i] else "~" + x
  }

  /** What became of the file p. It is gone if it was sent and the last mark on it in all the flow files was '^' or '-'.
      A flow file is gone, too, if it names nothing that was not sent, and its lines are marked else; any other file
      stays what it is. */
  ghost predicate Fate(files: Files, flows: seq<Path>, sends: seq<Path>, p: Path, after: Files)
    requires p in files
  {
    var gone := p in sends && AskedToDelete(files, flows, p);
    && (p !in flows ==> (p in after <==> !gone) && (p in after ==> after[p] == files[p]))
    && (p in flows ==> (p in after <==> !gone && exists x :: NamedIn(files[p], x) && x !in sends))
    && (p in flows && p in after ==> MarkedLines(files[p], sends, after[p]))
  }

  lemma {:induction false} LeftMeaning(lines: seq<string>, sends: seq<Path>, x: Path)
    ensures x in Left(lines, Names(sends)) <==> NamedIn(lines, x) && x !in sends
  {
    ListedNames(lines, x);
    hide Listed, NamedIn;
  }

  lemma {:induction false} NoneUnsent(lines: seq<string>, sends: seq<Path>)
    ensures Left(lines, Names(sends)) != {} <==> exists x :: NamedIn(lines, x) && x !in sends
  {
    var left := Left(lines, Names(sends));
    forall x ensures x in left <==> NamedIn(lines, x) && x !in sends { LeftMeaning(lines, sends, x); }
    hide Left, NamedIn;
    if left != {} { var x :| x in left; }
  }

  lemma {:induction false} LinesMarked(lines: seq<string>, sends: seq<Path>)
    ensures MarkedLines(lines, sends, Rewrite(lines, Left(lines, Names(sends))))
  {
    forall i, x | 0 <= i < |lines| && Bears(lines[i], x) ensures x == Target(lines[i]) {}
    forall x ensures x in Left(lines, Names(sends)) <==> NamedIn(lines, x) && x !in sends {
      LeftMeaning(lines, sends, x);
    }
    hide Left, NamedIn, Target, Bears;
  }

  /** What the end state means, file by file. */
  lemma {:induction false} FileFates(files: Files, flows: seq<Path>, sends: seq<Path>, p: Path)
    requires p in files
    ensures var after := FilesAfter(files, Names(flows), FlowActions(files, flows), Names(sends));
      && Fate(files, flows, sends, p, after) && after.Keys <= files.Keys
      && (p in flows && !(p in sends && AskedToDelete(files, flows, p)) ==>
            (if p in after then after[p] else []) == Outcome(files[p], Names(sends)))
  {
    LastMarkDecides(files, flows, p);
    LinesMarked(files[p], sends);
    NoneUnsent(files[p], sends);
    hide FlowActions, Left, Rewrite, MarkedLines, AskedToDelete, NamedIn;
  }

  lemma {:induction false} Fates(files: Files, flows: seq<Path>, sends: seq<Path>)
    ensures var after := FilesAfter(files, Names(flows), FlowActions(files, flows), Names(sends));
      after.Keys <= files.Keys && forall p :: p in files ==> Fate(files, flows, sends, p, after)
  {
    var after := FilesAfter(files, Names(flows), FlowActions(files, flows), Names(sends));
    forall p | p in files ensures Fate(files, flows, sends, p, after) { FileFates(files, flows, sends, p); }
    hide Left, Rewrite, Doomed;
  }

  /** A file that was to be truncated was sent, and keeps what it holds. */
  lemma {:induction false} TruncateExample()
    ensures var files := map["x.flo" := ["#mail"], "mail" := ["text"]];
            var actions := FlowActions(files, ["x.flo"]);
            actions == map["mail" := Truncate]
            && FilesAfter(files, {"x.flo"}, actions, {"mail"}) == map["mail" := ["text"]]
  {
    var files := map["x.flo" := ["#mail"], "mail" := ["text"]];
    assert "#mail"[1..] == "mail" && Target("#mail") == "mail";
    assert ["#mail"][1..] == [] && ["x.flo"][..0] == [];
    assert Listed(["#mail"]) == ["mail"];
    assert Left(["#mail"], {"mail"}) == {};
  }
}
