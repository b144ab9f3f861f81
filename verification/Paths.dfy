/** Slash-separated paths as `path/filepath` treats them on Unix, and the names `AddFile` gives to tar entries. */
module Paths {
  import opened GoText

  /** strings.Split(s, "/"). */
  function Split(s: string): (parts: seq<string>)
    ensures parts != [] && forall i :: 0 <= i < |parts| ==> '/' !in parts[i]
    decreases |s|
  {
    if '/' in s then [Before(s, '/')] + Split(s[|Before(s, '/')| + 1..]) else [s]
  }

  ghost predicate SlashFree(parts: seq<string>) { forall i :: 0 <= i < |parts| ==> '/' !in parts[i] }

  lemma SplitCons(a: string, b: string)
    requires '/' !in a
    ensures Split(a + "/" + b) == [a] + Split(b)
  {
    CutAt(a, '/', b);
    assert (a + "/" + b)[|a|] == '/';
  }

  lemma AtFirstSlash(s: string) returns (first: string, rest: string)
    requires '/' in s
    ensures s == first + "/" + rest && '/' !in first
  {
    first, rest := Before(s, '/'), s[|Before(s, '/')| + 1..];
  }

  lemma Regroup(first: string, rest: string, b: string)
    ensures (first + "/" + rest) + "/" + b == first + "/" + (rest + "/" + b)
  {
  }

  lemma PartsRegroup(first: string, parts: seq<string>, more: seq<string>)
    ensures [first] + (parts + more) == ([first] + parts) + more
  {
  }

  lemma SplitConcatStep(first: string, rest: string, b: string)
    requires '/' !in first && Split(rest + "/" + b) == Split(rest) + Split(b)
    ensures Split((first + "/" + rest) + "/" + b) == Split(first + "/" + rest) + Split(b)
  {
    SplitCons(first, rest);
    SplitCons(first, rest + "/" + b);
    Regroup(first, rest, b);
    PartsRegroup(first, Split(rest), Split(b));
  }

  lemma {:induction false} SplitConcat(a: string, b: string)
    ensures Split(a + "/" + b) == Split(a) + Split(b)
    decreases |a|
  {
    if '/' in a {
      var first, rest := AtFirstSlash(a);
      SplitConcat(rest, b);
      SplitConcatStep(first, rest, b);
    } else {
      SplitCons(a, b);
    }
  }

  lemma {:induction false} SplitJoin(parts: seq<string>)
    requires parts != [] && SlashFree(parts)
    ensures Split(Join(parts, "/")) == parts
  {
    if |parts| > 1 {
      SplitCons(parts[0], Join(parts[1..], "/"));
      SplitJoin(parts[1..]);
    } else {
      assert parts == [parts[0]];
    }
  }

  /** One path element: "." and empty ones vanish, ".." removes the last one where there is one. */
  function Push(rooted: bool, acc: seq<string>, part: string): seq<string> {
    if part == "" || part == "." then acc
    else if part != ".." then acc + [part]
    else if acc != [] && acc[|acc| - 1] != ".." then acc[..|acc| - 1]
    else if rooted then acc
    else acc + [".."]
  }

  function Reduce(rooted: bool, parts: seq<string>): seq<string> {
    if parts == [] then [] else Push(rooted, Reduce(rooted, parts[..|parts| - 1]), parts[|parts| - 1])
  }

  predicate Rooted(p: string) { p != "" && p[0] == '/' }

  function JoinOrDot(parts: seq<string>): string { if parts == [] then "." else Join(parts, "/") }

  /** filepath.Clean. */
  function Clean(p: string): string {
    if Rooted(p) then "/" + Join(Reduce(true, Split(p)), "/") else JoinOrDot(Reduce(false, Split(p)))
  }

  /** The part of a path up to and including its last slash. */
  function UpToSlash(p: string): (r: string)
    ensures Rooted(r) <==> Rooted(p)
  {
    if p == "" || p[|p| - 1] == '/' then p else
      var r := UpToSlash(p[..|p| - 1]);
      assert p[..|p| - 1] != "" ==> p[..|p| - 1][0] == p[0];
      r
  }

  /** filepath.Dir. */
  function Dir(p: string): string { Clean(UpToSlash(p)) }

  /** filepath.Rel("/", p), which fails on a relative path. */
  function RelToRoot(p: string): Option<string> {
    if Clean(p) == "/" then Some(".") else if Rooted(Clean(p)) then Some(Clean(p)[1..]) else None
  }

  /** filepath.Join. */
  function JoinPath(a: string, b: string): string {
    if a == "" then (if b == "" then "" else Clean(b)) else Clean(a + "/" + b)
  }

  /** The header name `AddFile` writes for a file put under `directory`; `None` is its error. */
  function ArchiveName(customFilename: string, statName: string, directory: string): Option<string> {
    var filename := if customFilename == "" then statName else customFilename;
    match RelToRoot(Dir(directory))
    case None => None
    case Some(relative) => Some(JoinPath(relative, filename))
  }

  /** Elements that mean themselves. */
  ghost predicate Plain(parts: seq<string>) {
    forall i :: 0 <= i < |parts| ==> '/' !in parts[i] && parts[i] != "" && parts[i] != "." && parts[i] != ".."
  }

  lemma {:induction false} ReducePlain(rooted: bool, parts: seq<string>)
    requires Plain(parts)
    ensures Reduce(rooted, parts) == parts
  {
    if parts != [] {
      ReducePlain(rooted, parts[..|parts| - 1]);
      assert parts == parts[..|parts| - 1] + [parts[|parts| - 1]];
    }
  }

  lemma {:induction false} RootedReducesToPlain(parts: seq<string>)
    requires SlashFree(parts)
    ensures Plain(Reduce(true, parts))
  {
    if parts != [] { RootedReducesToPlain(parts[..|parts| - 1]); }
  }

  /** ".." after ".." and nothing else. */
  function Ups(k: nat): (ups: seq<string>)
    ensures |ups| == k && forall i :: 0 <= i < k ==> ups[i] == ".."
  {
    if k == 0 then [] else Ups(k - 1) + [".."]
  }

  /** One more element moves below the climb, or climbs once more from the top. */
  lemma PushBelow(k: nat, below: seq<string>, part: string) returns (k': nat)
    requires Plain(below)
    ensures Push(false, Ups(k) + below, part) == Ups(k') + Push(true, below, part)
  {
    k' := k;
    if part == ".." && below == [] {
      assert Ups(k) + below == Ups(k) && Ups(k) + [".."] == Ups(k + 1);
      k' := k + 1;
    } else if part == ".." {
      assert (Ups(k) + below)[..|Ups(k) + below| - 1] == Ups(k) + below[..|below| - 1];
    }
  }

  lemma ClimbFree(k: nat, below: seq<string>)
    requires Plain(below)
    ensures k == 0 <==> ".." !in Ups(k) + below
  {
    if k > 0 {
      assert (Ups(k) + below)[0] == "..";
    }
  }

  /** Read as relative, a path reduces to what it reduces to from the root, below as many ".." as it climbs. */
  lemma {:induction false} RelativeClimbs(parts: seq<string>) returns (k: nat)
    requires SlashFree(parts)
    ensures Reduce(false, parts) == Ups(k) + Reduce(true, parts)
    ensures k == 0 <==> ".." !in Reduce(false, parts)
  {
    if parts == [] {
      k := 0;
    } else {
      var front, last := parts[..|parts| - 1], parts[|parts| - 1];
      k := RelativeClimbs(front);
      RootedReducesToPlain(front);
      k := PushBelow(k, Reduce(true, front), last);
    }
    RootedReducesToPlain(parts);
    ClimbFree(k, Reduce(true, parts));
  }

  lemma CleanOfRoot()
    ensures Clean(".") == "." && Clean("/") == "/"
  {
    assert Split(".") == ["."] && ["."][..0] == [] && Reduce(false, ["."]) == [];
    assert "" + "/" + "" == "/" && Split("") == [""] && [""] + [""] == ["", ""];
    SplitCons("", "");
    assert ["", ""][..1] == [""] && [""][..0] == [] && Reduce(true, ["", ""]) == [];
  }

  lemma JoinedIsRelative(parts: seq<string>)
    requires Plain(parts) && parts != []
    ensures SlashFree(parts) && !Rooted(Join(parts, "/"))
  {
    assert Join(parts, "/")[0] == parts[0][0];
  }

  lemma RootedSplit(text: string)
    ensures Split("/" + text) == [""] + Split(text)
  {
    assert "/" + text == "" + "/" + text;
    SplitCons("", text);
  }

  lemma CleanOfElements(parts: seq<string>)
    requires Plain(parts) && parts != []
    ensures Clean(Join(parts, "/")) == Join(parts, "/") && !Rooted(Join(parts, "/"))
    ensures Clean("/" + Join(parts, "/")) == "/" + Join(parts, "/")
  {
    JoinedIsRelative(parts);
    SplitJoin(parts);
    ReducePlain(false, parts);
    RootedSplit(Join(parts, "/"));
    ReducePlain(true, parts);
    ReduceSkips(true, "", parts);
  }

  /** Cleaning settles in one step, from the root or from a relative path. */
  lemma CleanOfPlain(parts: seq<string>)
    requires Plain(parts)
    ensures Clean(JoinOrDot(parts)) == JoinOrDot(parts) && !Rooted(JoinOrDot(parts))
    ensures Clean("/" + Join(parts, "/")) == "/" + Join(parts, "/")
  {
    if parts == [] {
      CleanOfRoot();
      assert "/" + "" == "/";
    } else {
      CleanOfElements(parts);
    }
  }

  lemma {:induction false} ReduceSkips(rooted: bool, skipped: string, parts: seq<string>)
    requires skipped == "" || skipped == "."
    ensures Reduce(rooted, [skipped] + parts) == Reduce(rooted, parts)
  {
    var all := [skipped] + parts;
    if parts == [] {
      assert all[..0] == [];
    } else {
      assert all[..|all| - 1] == [skipped] + parts[..|parts| - 1];
      ReduceSkips(rooted, skipped, parts[..|parts| - 1]);
    }
  }

  lemma CleanIsIdempotentAtRoot(p: string)
    requires Rooted(p)
    ensures Plain(Reduce(true, Split(p))) && Clean(Clean(p)) == Clean(p)
    ensures RelToRoot(p) == RelToRoot(Clean(p)) == Some(JoinOrDot(Reduce(true, Split(p))))
  {
    var parts := Reduce(true, Split(p));
    RootedReducesToPlain(Split(p));
    CleanOfPlain(parts);
    assert ("/" + Join(parts, "/"))[1..] == Join(parts, "/");
    if parts != [] {
      assert |Join(parts, "/")| >= |parts[0]| > 0;
    }
  }

  /** `AddFile` accepts a directory exactly when it is rooted: "" and "dist" fail, whatever its comment says. */
  lemma AddFileNeedsRootedDirectory(customFilename: string, statName: string, directory: string)
    ensures ArchiveName(customFilename, statName, directory).Some? <==> Rooted(directory)
  {
    var upTo := UpToSlash(directory);
    if Rooted(directory) {
      CleanIsIdempotentAtRoot(upTo);
      assert Rooted(Clean(upTo));
      CleanIsIdempotentAtRoot(Clean(upTo));
    } else {
      RelativeStaysRelative(upTo);
      RelativeStaysRelative(Clean(upTo));
    }
  }

  lemma {:induction false} UpToSlashDrops(base: string, last: string)
    requires '/' !in last
    ensures UpToSlash(base + "/" + last) == base + "/"
  {
    var p := base + "/" + last;
    if last == "" {
      assert p == base + "/";
    } else {
      assert p[..|p| - 1] == base + "/" + last[..|last| - 1] && p[|p| - 1] == last[|last| - 1];
      UpToSlashDrops(base, last[..|last| - 1]);
    }
  }

  /** The last element of the directory does not count: "/test" means the root, and only "/test/" means /test. */
  lemma LastElementDropped(customFilename: string, statName: string, base: string, last: string)
    requires '/' !in last
    ensures ArchiveName(customFilename, statName, base + "/" + last)
         == ArchiveName(customFilename, statName, base + "/")
  {
    UpToSlashDrops(base, last);
    UpToSlashDrops(base, "");
    assert base + "/" + "" == base + "/";
  }

  lemma RelativeStaysRelative(p: string)
    requires !Rooted(p)
    ensures !Rooted(Clean(p)) && Clean(p) != "/"
  {
    var parts := Reduce(false, Split(p));
    NoEmptyPart(Split(p));
    if parts != [] {
      assert Join(parts, "/")[0] == parts[0][0];
    }
  }

  lemma {:induction false} NoEmptyPart(parts: seq<string>)
    requires SlashFree(parts)
    ensures SlashFree(Reduce(false, parts)) && "" !in Reduce(false, parts)
  {
    if parts != [] { NoEmptyPart(parts[..|parts| - 1]); }
  }

  lemma {:induction false} NoUpsReducesToPlain(parts: seq<string>)
    requires SlashFree(parts) && ".." !in parts
    ensures Plain(Reduce(false, parts))
  {
    if parts != [] { NoUpsReducesToPlain(parts[..|parts| - 1]); }
  }

  /** For a rooted directory and a file name without "..", the stored name is clean, relative and free of "..". */
  lemma ArchiveNameIsClean(customFilename: string, statName: string, directory: string)
    requires Rooted(directory)
    requires ".." !in Split(if customFilename == "" then statName else customFilename)
    ensures ArchiveName(customFilename, statName, directory).Some?
    ensures var name := ArchiveName(customFilename, statName, directory).value;
            Clean(name) == name && !Rooted(name) && ".." !in Split(name)
  {
    var filename := if customFilename == "" then statName else customFilename;
    var upTo := UpToSlash(directory);
    CleanIsIdempotentAtRoot(upTo);
    CleanIsIdempotentAtRoot(Clean(upTo));
    var base := Reduce(true, Split(Clean(upTo)));
    PlainHasNoUps(base);
    CleanOfPlain(base);
    SplitConcat(JoinOrDot(base), filename);
    var parts := Split(JoinOrDot(base)) + Split(filename);
    NoUpsReducesToPlain(parts);
    CleanOfPlain(Reduce(false, parts));
    PlainHasNoUps(Reduce(false, parts));
  }

  lemma PlainHasNoUps(parts: seq<string>)
    requires Plain(parts)
    ensures ".." !in Split(JoinOrDot(parts)) && JoinOrDot(parts) != ""
  {
    if parts != [] {
      SplitJoin(parts);
      assert Join(parts, "/")[0] == parts[0][0];
    } else {
      assert Split(".") == ["."];
    }
  }

  /** The root as directory stores a name under what the name alone reduces to. */
  lemma StoredUnderRoot(p: string)
    requires p != ""
    ensures ArchiveName(p, "", "/") == Some(JoinOrDot(Reduce(false, Split(p))))
  {
    CleanOfPlain([]);
    assert Join([], "/") == "" && "/" + "" == "/" && UpToSlash("/") == "/";
    assert Dir("/") == "/" && RelToRoot("/") == Some(".");
    SplitCons(".", p);
    ReduceSkips(false, ".", Split(p));
    assert !Rooted("." + "/" + p);
  }

  /**
   * What first setup stores for an absolute path is what a later setup asks for, exactly when the path read as
   * relative does not climb out: in particular for every clean path.
   */
  lemma StoredIsRequested(p: string)
    requires Rooted(p)
    ensures ArchiveName(p, "", "/") == RelToRoot(p) <==> ".." !in Reduce(false, Split(p))
    ensures Clean(p) == p ==> ArchiveName(p, "", "/") == RelToRoot(p)
  {
    StoredUnderRoot(p);
    CleanIsIdempotentAtRoot(p);
    var k := RelativeClimbs(Split(p));
    var below, stored := Reduce(true, Split(p)), Reduce(false, Split(p));
    assert k == 0 ==> Ups(k) + below == below;
    if k > 0 {
      assert stored[0] == "..";
      AllSlashFree(Split(p));
      SplitJoin(stored);
      PlainHasNoUps(below);
    }
    if Clean(p) == p {
      CleanPathIsPlain(p);
    }
  }

  lemma {:induction false} AllSlashFree(parts: seq<string>)
    requires SlashFree(parts)
    ensures SlashFree(Reduce(false, parts))
  {
    NoEmptyPart(parts);
  }

  lemma CleanPathIsPlain(p: string)
    requires Rooted(p) && Clean(p) == p
    ensures Reduce(false, Split(p)) == Reduce(true, Split(p)) && ".." !in Reduce(false, Split(p))
  {
    var parts := Reduce(true, Split(p));
    RootedReducesToPlain(Split(p));
    var text := Join(parts, "/");
    RootedSplit(text);
    ReduceSkips(false, "", Split(text));
    if parts == [] {
      assert Split("") == [""] && [""][..0] == [];
    } else {
      SplitJoin(parts);
      ReducePlain(false, parts);
    }
  }

  // ---- What reducing and cleaning mean

  lemma {:induction false} ReduceFrom(rooted: bool, a: seq<string>, a': seq<string>, b: seq<string>)
    requires Reduce(rooted, a) == Reduce(rooted, a')
    ensures Reduce(rooted, a + b) == Reduce(rooted, a' + b)
  {
    if b == [] {
      assert a + b == a && a' + b == a';
    } else {
      var front := b[..|b| - 1];
      ReduceFrom(rooted, a, a', front);
      assert (a + b)[..|a + b| - 1] == a + front && (a' + b)[..|a' + b| - 1] == a' + front;
    }
  }

  lemma PushedTwice(rooted: bool, a: seq<string>, part: string)
    requires Plain([part])
    ensures Reduce(rooted, a + [part, ".."]) == Reduce(rooted, a)
  {
    assert [part][0] == part;
    assert (a + [part, ".."])[..|a| + 1] == a + [part];
    ReduceLast(rooted, a, part);
    assert (Reduce(rooted, a) + [part])[..|Reduce(rooted, a)|] == Reduce(rooted, a);
  }

  lemma ReduceNothing(rooted: bool, a: seq<string>, part: string)
    requires part == "" || part == "."
    ensures Reduce(rooted, a + [part]) == Reduce(rooted, a)
  {
    assert (a + [part])[..|a|] == a;
  }

  /**
   * Wherever they stand, empty elements and "." vanish, an element cancels with a ".." behind it, and from the root a
   * leading ".." vanishes; what is left when none of this applies stays as it is.
   */
  lemma ReduceLaws(rooted: bool, a: seq<string>, b: seq<string>, part: string, k: nat)
    ensures part == "" || part == "." ==> Reduce(rooted, a + [part] + b) == Reduce(rooted, a + b)
    ensures Plain([part]) ==> Reduce(rooted, a + [part, ".."] + b) == Reduce(rooted, a + b)
    ensures Reduce(true, [".."] + b) == Reduce(true, b)
    ensures Plain(b) ==> Reduce(false, Ups(k) + b) == Ups(k) + b && Reduce(true, b) == b
  {
    if part == "" || part == "." {
      ReduceNothing(rooted, a, part);
      ReduceFrom(rooted, a + [part], a, b);
    }
    if Plain([part]) {
      PushedTwice(rooted, a, part);
      ReduceFrom(rooted, a + [part, ".."], a, b);
    }
    assert [".."][..0] == [] && Reduce(true, [".."]) == [];
    ReduceFrom(true, [".."], [], b);
    assert [] + b == b;
    if Plain(b) {
      ClimbStays(k, b);
      ReducePlain(true, b);
    }
  }

  lemma {:induction false} ClimbStays(k: nat, b: seq<string>)
    requires Plain(b)
    ensures Reduce(false, Ups(k) + b) == Ups(k) + b
    decreases k, |b|
  {
    if b != [] {
      var front, last := b[..|b| - 1], b[|b| - 1];
      ClimbStays(k, front);
      assert b == front + [last] && Ups(k) + b == (Ups(k) + front) + [last];
      assert [last][0] == last;
      ReduceLast(false, Ups(k) + front, last);
    } else if k > 0 {
      ClimbStays(k - 1, []);
      assert Ups(k) + b == Ups(k) && Ups(k - 1) + [] == Ups(k - 1) && Ups(k)[..k - 1] == Ups(k - 1);
    } else {
      assert Ups(0) + b == [];
    }
  }

  /** The elements of a clean path are the reduced ones, with nothing before them but the root. */
  lemma CleanMeans(p: string)
    ensures var parts := Reduce(Rooted(p), Split(p));
      Split(Clean(p)) == if Rooted(p) then [""] + (if parts == [] then [""] else parts)
                         else if parts == [] then ["."] else parts
  {
    var parts := Reduce(Rooted(p), Split(p));
    assert Split("") == [""];
    if Rooted(p) {
      RootedReducesToPlain(Split(p));
      RootedSplit(Join(parts, "/"));
      if parts != [] {
        SplitJoin(parts);
      }
    } else if parts == [] {
      assert Split(".") == ["."];
    } else {
      NoEmptyPart(Split(p));
      SplitJoin(parts);
    }
  }

  /** A file goes under its directory less the last element, and a file without a name of its own under that of stat. */
  lemma StoredBelow(customFilename: string, statName: string, base: string, last: string)
    requires '/' !in last && (base == "" || Rooted(base))
    ensures var filename := if customFilename == "" then statName else customFilename;
      ArchiveName(customFilename, statName, base + "/" + last)
      == Some(JoinOrDot(Reduce(false, Reduce(true, Split(base)) + Split(filename))))
  {
    var filename := if customFilename == "" then statName else customFilename;
    UpToSlashDrops(base, last);
    var upTo := base + "/";
    assert upTo == base + "/" + "" && Rooted(upTo);
    SplitConcat(base, "");
    assert Split("") == [""];
    ReduceNothing(true, Split(base), "");
    CleanIsIdempotentAtRoot(upTo);
    CleanIsIdempotentAtRoot(Clean(upTo));
    JoinedBelow(Reduce(true, Split(base)), filename);
  }

  lemma JoinedBelow(base: seq<string>, filename: string)
    requires Plain(base)
    ensures JoinPath(JoinOrDot(base), filename) == JoinOrDot(Reduce(false, base + Split(filename)))
  {
    PlainHasNoUps(base);
    CleanOfPlain(base);
    SplitConcat(JoinOrDot(base), filename);
    assert !Rooted(JoinOrDot(base) + "/" + filename);
    if base == [] {
      assert Split(".") == ["."] && [] + Split(filename) == Split(filename);
      ReduceSkips(false, ".", Split(filename));
    } else {
      SplitJoin(base);
    }
  }

  // ---- The archive keys of the files in the Consul home

  /** The name first setup stores `file` of its home under. */
  function StoredKey(home: string, file: string): string {
    match ArchiveName(home + "/" + file, "", "/") case Some(name) => name case None => ""
  }

  /** The name a later setup asks for; relative homes are an error. */
  function RequestedKey(home: string, file: string): Option<string> { RelToRoot(JoinPath(home, file)) }

  lemma ReduceLast(rooted: bool, parts: seq<string>, file: string)
    requires Plain([file])
    ensures Reduce(rooted, parts + [file]) == Reduce(rooted, parts) + [file]
  {
    assert (parts + [file])[..|parts|] == parts && [file][0] == file;
  }

  lemma KeyEndsWithFile(home: string, file: string)
    requires Plain([file])
    ensures var parts := Split(StoredKey(home, file)); parts[|parts| - 1] == file
    ensures RequestedKey(home, file).Some? ==>
      var parts := Split(RequestedKey(home, file).value); parts[|parts| - 1] == file
  {
    assert [file][0] == file;
    var whole := home + "/" + file;
    SplitConcat(home, file);
    assert Split(file) == [file];
    StoredUnderRoot(whole);
    ReduceLast(false, Split(home), file);
    AllSlashFree(Split(whole));
    SplitJoin(Reduce(false, Split(whole)));
    if RequestedKey(home, file).Some? {
      if home != "" && Rooted(home) {
        CleanIsIdempotentAtRoot(whole);
        CleanIsIdempotentAtRoot(Clean(whole));
        ReduceLast(true, Split(home), file);
        SplitJoin(Reduce(true, Split(whole)));
      } else {
        RelativeStaysRelative(if home == "" then file else whole);
        RelativeStaysRelative(JoinPath(home, file));
        assert false;
      }
    }
  }

  /** A rooted home that leads from the root to where the first home leads, read as relative to the root. */
  ghost predicate HomesAgree(home: string, firstHome: string) {
    Rooted(home) && Reduce(true, Split(home)) == Reduce(false, Split(firstHome))
  }

  lemma StoredKeyIs(home: string, file: string)
    requires Plain([file])
    ensures StoredKey(home, file) == Join(Reduce(false, Split(home)) + [file], "/")
    ensures SlashFree(Reduce(false, Split(home)) + [file])
  {
    assert [file][0] == file;
    SplitConcat(home, file);
    assert Split(file) == [file];
    StoredUnderRoot(home + "/" + file);
    ReduceLast(false, Split(home), file);
    AllSlashFree(Split(home));
  }

  lemma RequestedKeyIs(home: string, file: string)
    requires Plain([file])
    ensures Rooted(home) ==> RequestedKey(home, file) == Some(Join(Reduce(true, Split(home)) + [file], "/"))
    ensures Rooted(home) ==> SlashFree(Reduce(true, Split(home)) + [file])
    ensures !Rooted(home) ==> RequestedKey(home, file) == None
  {
    assert [file][0] == file;
    var whole := home + "/" + file;
    if Rooted(home) {
      SplitConcat(home, file);
      assert Split(file) == [file];
      CleanIsIdempotentAtRoot(whole);
      ReduceLast(true, Split(home), file);
      RootedReducesToPlain(Split(home));
    } else {
      RelativeStaysRelative(if home == "" then file else whole);
      RelativeStaysRelative(JoinPath(home, file));
    }
  }

  lemma JoinedOnce(a: seq<string>, b: seq<string>, file: string)
    requires SlashFree(a + [file]) && SlashFree(b + [file])
    ensures Join(a + [file], "/") == Join(b + [file], "/") <==> a == b
  {
    SplitJoin(a + [file]);
    SplitJoin(b + [file]);
    if a + [file] == b + [file] {
      assert a == (a + [file])[..|a|] && b == (b + [file])[..|b|];
    }
  }

  /** The key a later setup asks for is the key the first one wrote exactly when their homes agree. */
  lemma KeysMeet(home: string, firstHome: string, file: string)
    requires Plain([file])
    ensures RequestedKey(home, file) == Some(StoredKey(firstHome, file)) <==> HomesAgree(home, firstHome)
  {
    StoredKeyIs(firstHome, file);
    RequestedKeyIs(home, file);
    if Rooted(home) {
      JoinedOnce(Reduce(true, Split(home)), Reduce(false, Split(firstHome)), file);
    }
  }

  /** With one rooted home on both sides the keys written and requested agree exactly when it does not climb. */
  lemma KeysAgree(home: string, file: string)
    requires Rooted(home) && Plain([file])
    ensures RequestedKey(home, file) == Some(StoredKey(home, file)) <==> ".." !in Reduce(false, Split(home))
    ensures ".." !in Split(home) ==> ".." !in Reduce(false, Split(home))
  {
    KeysMeet(home, home, file);
    RootedReducesToPlain(Split(home));
    var k := RelativeClimbs(Split(home));
    if k == 0 {
      assert Ups(0) + Reduce(true, Split(home)) == Reduce(true, Split(home));
    }
    if ".." !in Split(home) {
      NoUpsReducesToPlain(Split(home));
    }
  }
}
