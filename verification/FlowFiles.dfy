/** Flow files (FTS-5005), and what becomes of their lines. */
module FlowFiles {

  type Path = string

  datatype Action = Truncate | Delete

  predicate Prefixed(line: string) {
    line != "" && line[0] in {'#', '^', '-', '@'}
  }

  /** Lines that were dealt with before. */
  predicate Skipped(line: string) {
    line != "" && line[0] in {'~', '!'}
  }

  /** The file a line names. */
  function Target(line: string): Path {
    if Prefixed(line) then line[1..] else line
  }

  function Mark(line: string): string {
    "~" + Target(line)
  }

  /** What a callout reads: the names on the lines up to the first empty one, but for lines dealt with before. */
  function Listed(lines: seq<string>): seq<Path> {
    if lines == [] || lines[0] == "" then []
    else if Skipped(lines[0]) then Listed(lines[1..])
    else [Target(lines[0])] + Listed(lines[1..])
  }

  /** One line as it is written back; left is the set of names not yet sent. */
  function Rewritten(line: string, left: set<Path>): string {
    if Skipped(line) || Target(line) in left then line else Mark(line)
  }

  function Rewrite(lines: seq<string>, left: set<Path>): seq<string> {
    seq(|lines|, i requires 0 <= i < |lines| => Rewritten(lines[i], left))
  }

  function Names(s: seq<Path>): set<Path> {
    set x | x in s
  }

  function Left(lines: seq<string>, sent: set<Path>): set<Path> {
    Names(Listed(lines)) - sent
  }

  /** What becomes of a flow file: nothing if every name it lists was sent. */
  function Outcome(lines: seq<string>, sent: set<Path>): seq<string> {
    if Left(lines, sent) == {} then [] else Rewrite(lines, Left(lines, sent))
  }

  /** Line i is read, and names x. */
  predicate ListedAt(lines: seq<string>, i: nat, x: Path) {
    i < |lines| && (forall j :: 0 <= j <= i ==> lines[j] != "") && !Skipped(lines[i]) && Target(lines[i]) == x
  }

  lemma {:induction false} ListedMeaning(lines: seq<string>, x: Path)
    ensures x in Listed(lines) <==> exists i: nat :: ListedAt(lines, i, x)
    decreases |lines|
  {
    if lines != [] && lines[0] != "" {
      ListedMeaning(lines[1..], x);
      if i: nat :| ListedAt(lines[1..], i, x) {
        assert forall j :: 0 < j <= i + 1 ==> lines[j] == lines[1..][j - 1];
        assert ListedAt(lines, i + 1, x);
      }
      if !Skipped(lines[0]) && x == Target(lines[0]) { assert ListedAt(lines, 0, x); }
      if i: nat :| ListedAt(lines, i, x) {
        if i > 0 { ListedAtTail(lines, i, x); }
      }
    }
  }

  lemma {:induction false} ListedAtTail(lines: seq<string>, i: nat, x: Path)
    requires 0 < i && ListedAt(lines, i, x)
    ensures ListedAt(lines[1..], i - 1, x)
  {
    assert forall j :: 0 <= j <= i - 1 ==> lines[1..][j] == lines[j + 1];
  }

  /** The name on a line, which is what stands behind the mark, if it begins with one. */
  ghost predicate LineNames(line: string, x: Path) {
    line != "" && line[0] !in {'~', '!'} && x == if line[0] in {'#', '^', '-', '@'} then line[1..] else line
  }

  /** Some line ahead of the first empty one, that was not dealt with before, names x. */
  ghost predicate NamedIn(lines: seq<string>, x: Path) {
    exists i: nat :: i < |lines| && LineNames(lines[i], x) && forall j :: 0 <= j < i ==> lines[j] != ""
  }

  lemma {:induction false} ListedNames(lines: seq<string>, x: Path)
    ensures x in Listed(lines) <==> NamedIn(lines, x)
  {
    ListedMeaning(lines, x);
    if i: nat :| ListedAt(lines, i, x) { assert LineNames(lines[i], x); }
    if NamedIn(lines, x) {
      var i: nat :| i < |lines| && LineNames(lines[i], x) && forall j :: 0 <= j < i ==> lines[j] != "";
      assert ListedAt(lines, i, x);
    }
  }

  // ---------- What is kept ----------

  /** Reading the rewritten file finds just the names that were not sent, whatever the file looks like. */
  lemma {:induction false} RereadFindsUnsent(lines: seq<string>, left: set<Path>)
    requires left <= Names(Listed(lines))
    ensures Names(Listed(Rewrite(lines, left))) == left
  {
    forall x ensures x in Listed(Rewrite(lines, left)) <==> x in left {
      ListedMeaning(lines, x);
      ListedMeaning(Rewrite(lines, left), x);
      if x in left {
        var i: nat :| ListedAt(lines, i, x);
        assert ListedAt(Rewrite(lines, left), i, x);
      }
      if i: nat :| ListedAt(Rewrite(lines, left), i, x) {
        assert Mark(lines[i])[0] == '~';
      }
    }
  }

  /** In a file without empty lines the order and the repetitions are kept too. */
  lemma {:induction false} RereadInOrder(lines: seq<string>, left: set<Path>)
    requires "" !in lines
    ensures Listed(Rewrite(lines, left)) == Filter(Listed(lines), left)
    decreases |lines|
  {
    if lines != [] {
      var rest := lines[1..];
      RereadInOrder(rest, left);
      assert Rewrite(lines, left)[1..] == Rewrite(rest, left);
      assert Rewrite(lines, left) == [Rewritten(lines[0], left)] + Rewrite(rest, left);
    }
  }

  function Filter(s: seq<Path>, left: set<Path>): seq<Path> {
    if s == [] then [] else (if s[0] in left then [s[0]] else []) + Filter(s[1..], left)
  }

  /** Sending in two callouts, the second reading what the first left, is sending at once. */
  lemma {:induction false} CalloutsCompose(lines: seq<string>, first: set<Path>, second: set<Path>)
    ensures Outcome(Outcome(lines, first), second) == Outcome(lines, first + second)
  {
    var left := Left(lines, first);
    if left == {} {
      assert Left(lines, first + second) == {};
    } else {
      var once := Rewrite(lines, left);
      RereadFindsUnsent(lines, left);
      assert Left(once, second) == Left(lines, first + second);
    }
  }

  /** The names on any line, also past an empty one. */
  function Asked(lines: seq<string>): set<Path> {
    set i | 0 <= i < |lines| && lines[i] != "" && !Skipped(lines[i]) :: Target(lines[i])
  }

  /** Unsent names are still asked for afterwards exactly when they are all listed ahead of the first empty line. */
  lemma {:induction false} NothingLost(lines: seq<string>, sent: set<Path>)
    ensures Names(Listed(Outcome(lines, sent))) == Asked(lines) - sent <==> Asked(lines) - sent <= Names(Listed(lines))
  {
    RereadFindsUnsent(lines, Left(lines, sent));
    forall x | x in Listed(lines) ensures x in Asked(lines) {
      ListedMeaning(lines, x);
      var i: nat :| ListedAt(lines, i, x);
      assert lines[i] != "" && !Skipped(lines[i]) && Target(lines[i]) == x;
    }
    assert Names(Listed(Outcome(lines, sent))) == Left(lines, sent);
    assert Names(Listed(lines)) <= Asked(lines);
    hide Listed, Asked, Outcome;
  }

  /** An entry below an empty line is lost with the file. */
  lemma {:induction false} LostExample()
    ensures Outcome(["^a", "", "^b"], {"a"}) == []
    ensures "b" in Asked(["^a", "", "^b"]) - {"a"}
  {
    var lines := ["^a", "", "^b"];
    assert lines[1..] == ["", "^b"];
    assert Listed(lines) == ["a"];
    assert lines[2] == "^b" && Target(lines[2]) == "b";
  }
}
