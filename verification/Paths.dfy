/** Where a message's file lies: `filepath.Join`, and opening a cleaned path in a file system
    without symbolic links.  A place is the list of names from the root. */
module Paths {
  import opened GoStrings
  import opened Messages

  const SLASH: byte := 0x2F
  const HERE: GoString := [0x2E]
  const PARENT: GoString := [0x2E, 0x2E]
  const MESSAGES: GoString := Ascii("messages")
  const JSON: GoString := Ascii(".json")

  /** What stands between the slashes. */
  function Elements(path: GoString): (es: seq<GoString>)
    ensures |es| >= 1
  {
    if path == [] then [[]]
    else
      var es := Elements(path[1..]);
      if path[0] == SLASH then [[]] + es else [[path[0]] + es[0]] + es[1..]
  }

  /** One step along a path; above the root there is nothing. */
  function Enter(rooted: bool, at: seq<GoString>, e: GoString): seq<GoString> {
    if e == [] || e == HERE then at
    else if e != PARENT then at + [e]
    else if at != [] && at[|at| - 1] != PARENT then at[..|at| - 1]
    else if rooted then at
    else at + [e]
  }

  function Walk(rooted: bool, at: seq<GoString>, es: seq<GoString>): seq<GoString> {
    if es == [] then at else Enter(rooted, Walk(rooted, at, es[..|es| - 1]), es[|es| - 1])
  }

  /** `filepath.Clean`: no empty elements, no ".", and ".." only at the front of a relative path. */
  datatype CleanPath = CleanPath(rooted: bool, elements: seq<GoString>)

  predicate IsRooted(path: GoString) {
    path != [] && path[0] == SLASH
  }

  function Clean(path: GoString): CleanPath {
    CleanPath(IsRooted(path), Walk(IsRooted(path), [], Elements(path)))
  }

  /** `filepath.Join` of the data directory with names: a leading empty element is left out. */
  function Join(dataDir: GoString, rest: GoString): CleanPath {
    Clean(if dataDir == [] then rest else dataDir + [SLASH] + rest)
  }

  /** The place the operating system finds a path at. */
  function Place(workingDir: seq<GoString>, path: CleanPath): seq<GoString> {
    Walk(true, if path.rooted then [] else workingDir, path.elements)
  }

  function MessagesDir(workingDir: seq<GoString>, dataDir: GoString): seq<GoString> {
    Place(workingDir, Join(dataDir, MESSAGES))
  }

  function MessageFile(workingDir: seq<GoString>, dataDir: GoString, id: GoString): seq<GoString> {
    Place(workingDir, Join(dataDir, MESSAGES + [SLASH] + (id + JSON)))
  }

  /** The name of an ID's file in the messages directory, or None when it is not in it. */
  function FileOf(workingDir: seq<GoString>, dataDir: GoString, id: GoString): Option<GoString> {
    NameIn(MessagesDir(workingDir, dataDir), MessageFile(workingDir, dataDir, id))
  }

  function NameIn(dir: seq<GoString>, file: seq<GoString>): Option<GoString> {
    if file != [] && file[..|file| - 1] == dir then Some(file[|file| - 1]) else None
  }

  // ---------------------------------------------------------------- walking

  lemma {:induction false} WalkConcat(rooted: bool, at: seq<GoString>, es: seq<GoString>, fs: seq<GoString>)
    ensures Walk(rooted, at, es + fs) == Walk(rooted, Walk(rooted, at, es), fs)
  {
    if fs == [] {
      assert es + fs == es;
    } else {
      assert (es + fs)[..|es + fs| - 1] == es + fs[..|fs| - 1];
      WalkConcat(rooted, at, es, fs[..|fs| - 1]);
    }
  }

  lemma {:induction false} ElementsConcat(a: GoString, b: GoString)
    ensures Elements(a + [SLASH] + b) == Elements(a) + Elements(b)
  {
    var path := a + [SLASH] + b;
    if a == [] {
      assert path[1..] == b;
    } else {
      assert path[1..] == a[1..] + [SLASH] + b;
      ElementsConcat(a[1..], b);
    }
  }

  lemma {:induction false} Single(e: GoString)
    requires SLASH !in e
    ensures Elements(e) == [e]
  {
    if e != [] {
      Single(e[1..]);
      assert [e[0]] + e[1..] == e;
    }
  }

  function Extend(es: seq<GoString>, suffix: GoString): seq<GoString>
    requires es != []
  {
    es[..|es| - 1] + [es[|es| - 1] + suffix]
  }

  lemma ExtendCons(e: GoString, c: byte, es: seq<GoString>, suffix: GoString)
    requires es != []
    ensures Extend([e] + es, suffix) == [e] + Extend(es, suffix)
    ensures Extend([[c] + es[0]] + es[1..], suffix) ==
            [[c] + Extend(es, suffix)[0]] + Extend(es, suffix)[1..]
  {
    if |es| == 1 {
      assert ([c] + es[0]) + suffix == [c] + (es[0] + suffix);
    }
  }

  /** A slash-free suffix belongs to the last element. */
  lemma {:induction false} ElementsSuffix(a: GoString, suffix: GoString)
    requires SLASH !in suffix
    ensures Elements(a + suffix) == Extend(Elements(a), suffix)
  {
    var path := a + suffix;
    if a == [] {
      assert path == suffix == [] + suffix;
      Single(suffix);
    } else {
      assert path[1..] == a[1..] + suffix;
      ElementsSuffix(a[1..], suffix);
      ExtendCons([], a[0], Elements(a[1..]), suffix);
    }
  }

  /** A stack of names as cleaning leaves it. */
  predicate IsClean(rooted: bool, at: seq<GoString>) {
    forall e | e in at :: e != [] && e != HERE && (rooted ==> e != PARENT)
  }

  lemma EnterCleaned(rooted: bool, start: seq<GoString>, at: seq<GoString>, e: GoString)
    requires IsClean(rooted, at) && (rooted ==> start == [])
    ensures IsClean(rooted, Enter(rooted, at, e))
    ensures Walk(true, start, Enter(rooted, at, e)) == Enter(true, Walk(true, start, at), e)
  {
    if e != [] && e != HERE {
      assert (at + [e])[..|at|] == at;
      if e == PARENT && at != [] {
        var up := at[..|at| - 1];
        assert forall x | x in up :: x in at;
        assert at[|at| - 1] in at;
        var there := Walk(true, start, up);
        assert at[|at| - 1] != PARENT ==> (there + [at[|at| - 1]])[..|there|] == there;
      }
    }
  }

  /** Cleaning a path does not change the place it leads to. */
  lemma {:induction false} CleanWalk(rooted: bool, start: seq<GoString>, es: seq<GoString>)
    requires rooted ==> start == []
    ensures IsClean(rooted, Walk(rooted, [], es))
    ensures Walk(true, start, Walk(rooted, [], es)) == Walk(true, start, es)
  {
    if es != [] {
      var before := es[..|es| - 1];
      CleanWalk(rooted, start, before);
      EnterCleaned(rooted, start, Walk(rooted, [], before), es[|es| - 1]);
    }
  }

  lemma CleanKeepsPlace(workingDir: seq<GoString>, path: GoString)
    ensures Place(workingDir, Clean(path)) == Walk(true, if IsRooted(path) then [] else workingDir, Elements(path))
  {
    CleanWalk(IsRooted(path), if IsRooted(path) then [] else workingDir, Elements(path));
  }

  // ---------------------------------------------------------------- where an ID's file lies

  /** Where the data directory's elements start from. */
  function Start(workingDir: seq<GoString>, dataDir: GoString): seq<GoString> {
    var start := if IsRooted(dataDir) then [] else workingDir;
    if dataDir == [] then start else Walk(true, start, Elements(dataDir))
  }

  lemma JoinedPlace(workingDir: seq<GoString>, dataDir: GoString, rest: GoString)
    requires !IsRooted(rest)
    ensures Place(workingDir, Join(dataDir, rest)) == Walk(true, Start(workingDir, dataDir), Elements(rest))
  {
    if dataDir == [] {
      CleanKeepsPlace(workingDir, rest);
    } else {
      CleanKeepsPlace(workingDir, dataDir + [SLASH] + rest);
      ElementsConcat(dataDir, rest);
      WalkConcat(true, if IsRooted(dataDir) then [] else workingDir, Elements(dataDir), Elements(rest));
    }
  }

  /** An ID's file is found by walking from the messages directory. */
  lemma FileFromDir(workingDir: seq<GoString>, dataDir: GoString, id: GoString)
    ensures MessageFile(workingDir, dataDir, id) == Walk(true, MessagesDir(workingDir, dataDir), Elements(id + JSON))
  {
    var start := Start(workingDir, dataDir);
    JoinedPlace(workingDir, dataDir, MESSAGES);
    JoinedPlace(workingDir, dataDir, MESSAGES + [SLASH] + (id + JSON));
    ElementsConcat(MESSAGES, id + JSON);
    WalkConcat(true, start, Elements(MESSAGES), Elements(id + JSON));
  }

  /** The part of an ID in front of its last slash, and the part behind it. */
  function DirPart(id: GoString): seq<GoString> {
    Elements(id)[..|Elements(id)| - 1]
  }

  function BasePart(id: GoString): GoString {
    Elements(id)[|Elements(id)| - 1]
  }

  lemma JsonName(base: GoString)
    ensures SLASH !in JSON && base + JSON != [] && base + JSON != HERE && base + JSON != PARENT
  {
    assert |base + JSON| >= 5;
  }

  lemma EnterName(dir: seq<GoString>, es: seq<GoString>, name: GoString)
    requires name != [] && name != HERE && name != PARENT
    ensures NameIn(dir, Walk(true, dir, es + [name])) == if Walk(true, dir, es) == dir then Some(name) else None
  {
    assert (es + [name])[..|es|] == es;
    var there := Walk(true, dir, es);
    assert (there + [name])[..|there|] == there;
  }

  /** The file is in the messages directory exactly when the ID's part in front of its last slash
      leads back to that directory; its name is then the part behind. */
  lemma FileOfExactly(workingDir: seq<GoString>, dataDir: GoString, id: GoString)
    ensures var dir := MessagesDir(workingDir, dataDir);
            FileOf(workingDir, dataDir, id) == if Walk(true, dir, DirPart(id)) == dir then Some(BasePart(id) + JSON) else None
  {
    JsonName(BasePart(id));
    FileFromDir(workingDir, dataDir, id);
    ElementsSuffix(id, JSON);
    EnterName(MessagesDir(workingDir, dataDir), DirPart(id), BasePart(id) + JSON);
  }

  /** An ID without a slash names its file. */
  lemma PlainFile(workingDir: seq<GoString>, dataDir: GoString, id: GoString)
    requires SLASH !in id
    ensures FileOf(workingDir, dataDir, id) == Some(id + JSON)
  {
    Single(id);
    FileOfExactly(workingDir, dataDir, id);
  }

  /** An ID of two names: its file is not in the directory that is loaded. */
  lemma SubdirectoryIsLost(workingDir: seq<GoString>, dataDir: GoString, a: GoString, b: GoString)
    requires SLASH !in a && SLASH !in b && a != [] && a != HERE && a != PARENT
    ensures FileOf(workingDir, dataDir, a + [SLASH] + b) == None
  {
    var dir := MessagesDir(workingDir, dataDir);
    Single(a);
    Single(b);
    ElementsConcat(a, b);
    FileOfExactly(workingDir, dataDir, a + [SLASH] + b);
    assert DirPart(a + [SLASH] + b) == [a];
    assert Walk(true, dir, [a]) == Enter(true, dir, a) == dir + [a];
    assert |dir + [a]| != |dir|;
  }

  /** An ID that goes down and up again: its file is that of its last name. */
  lemma DetourIsShared(workingDir: seq<GoString>, dataDir: GoString, a: GoString, b: GoString)
    requires SLASH !in a && SLASH !in b && a != [] && a != HERE && a != PARENT
    ensures FileOf(workingDir, dataDir, a + [SLASH] + (PARENT + [SLASH] + b)) == Some(b + JSON)
    ensures FileOf(workingDir, dataDir, b) == Some(b + JSON)
  {
    var dir, id := MessagesDir(workingDir, dataDir), a + [SLASH] + (PARENT + [SLASH] + b);
    Single(a);
    Single(b);
    Single(PARENT);
    ElementsConcat(PARENT, b);
    ElementsConcat(a, PARENT + [SLASH] + b);
    FileOfExactly(workingDir, dataDir, id);
    PlainFile(workingDir, dataDir, b);
    assert DirPart(id) == [a] + [PARENT] && BasePart(id) == b;
    WalkConcat(true, dir, [a], [PARENT]);
    assert Walk(true, dir, [a]) == Enter(true, dir, a) == dir + [a];
    assert Walk(true, dir + [a], [PARENT]) == Enter(true, dir + [a], PARENT) == dir;
  }
}
