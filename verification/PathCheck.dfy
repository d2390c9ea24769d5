/** The scanner in libnabud/fileio.c that refuses paths leaving the local storage root,
    measured against the depth of path components. */
module PathCheck {

  /** A C string: the terminator is the end of the sequence. */
  type CString = s: string | '\0' !in s witness ""

  // ----- Component semantics -----

  /** The text before the first slash. */
  function First(s: string): string {
    if s == "" || s[0] == '/' then "" else [s[0]] + First(s[1..])
  }

  /** The components after the first slash. */
  function Rest(s: string): seq<string>
    decreases |s|, 0
  {
    if s == "" then [] else if s[0] == '/' then Split(s[1..]) else Rest(s[1..])
  }

  /** Components between slashes; empty ones included. */
  function Split(s: string): seq<string>
    decreases |s|, 1
  {
    [First(s)] + Rest(s)
  }

  function Joined(cs: seq<string>): string
    requires cs != []
  {
    if |cs| == 1 then cs[0] else cs[0] + "/" + Joined(cs[1..])
  }

  /** The components are free of slashes, and joined by slashes they are the path. */
  lemma {:induction false} SplitJoined(s: string)
    ensures Joined(Split(s)) == s && forall c :: c in Split(s) ==> '/' !in c
    decreases |s|
  {
    if s == "" {
      assert Split(s) == [""];
    } else if s[0] == '/' {
      SplitJoined(s[1..]);
      assert Split(s)[1..] == Split(s[1..]);
    } else {
      SplitJoined(s[1..]);
      assert Split(s)[1..] == Rest(s) == Split(s[1..])[1..];
      assert Split(s)[0] == [s[0]] + Split(s[1..])[0];
    }
  }

  predicate DotName(c: string) { c != "" && c[0] == '.' && c != "." && c != ".." }

  /** How far a component descends; `hidden` is the weight given to names that start with a dot. */
  function Weight(c: string, hidden: int): int {
    if c == "" || c == "." then 0
    else if c == ".." then -1
    else if DotName(c) then hidden
    else 1
  }

  function Depth(cs: seq<string>, hidden: int): int {
    if cs == [] then 0 else Depth(cs[..|cs| - 1], hidden) + Weight(cs[|cs| - 1], hidden)
  }

  /** Some prefix of the path lies above the root. */
  ghost predicate Escapes(path: string, hidden: int) {
    exists k :: 0 <= k <= |Split(path)| && Depth(Split(path)[..k], hidden) < 0
  }

  /** The same, walking the components from depth d. */
  predicate Dips(d: int, cs: seq<string>, hidden: int)
    decreases |cs|
  {
    cs != [] && (d + Weight(cs[0], hidden) < 0 || Dips(d + Weight(cs[0], hidden), cs[1..], hidden))
  }

  lemma {:induction false} DepthCons(cs: seq<string>, k: nat, hidden: int)
    requires 0 < k <= |cs|
    ensures Depth(cs[..k], hidden) == Weight(cs[0], hidden) + Depth(cs[1..][..k - 1], hidden)
    decreases k
  {
    assert cs[..k][..k - 1] == cs[..k - 1];
    if k == 1 {
      assert cs[..0] == [] && cs[1..][..0] == [];
    } else {
      DepthCons(cs, k - 1, hidden);
      assert cs[1..][..k - 1][..k - 2] == cs[1..][..k - 2];
    }
  }

  lemma {:induction false} DipsIsSomePrefix(d: int, cs: seq<string>, hidden: int)
    requires d >= 0
    ensures Dips(d, cs, hidden) <==> exists k :: 0 <= k <= |cs| && d + Depth(cs[..k], hidden) < 0
    decreases |cs|
  {
    assert cs[..0] == [];
    if cs != [] {
      var d' := d + Weight(cs[0], hidden);
      DepthCons(cs, 1, hidden);
      assert cs[1..][..0] == [];
      if d' < 0 {
        assert d + Depth(cs[..1], hidden) < 0;
      } else {
        DipsIsSomePrefix(d', cs[1..], hidden);
        forall k | 0 < k <= |cs|
          ensures d + Depth(cs[..k], hidden) == d' + Depth(cs[1..][..k - 1], hidden)
        {
          DepthCons(cs, k, hidden);
        }
        if k :| 0 <= k <= |cs[1..]| && d' + Depth(cs[1..][..k], hidden) < 0 {
          assert d + Depth(cs[..k + 1], hidden) < 0;
        }
        if k :| 0 <= k <= |cs| && d + Depth(cs[..k], hidden) < 0 {
          assert d' + Depth(cs[1..][..k - 1], hidden) < 0;
        }
      }
    }
  }

  // ----- The scanner -----

  datatype State = Initial | Base | HaveDot | HaveDotDot | HaveSlash | HaveSlashDot | HaveSlashDotDot

  /** The verdict of the scanning loop on what is left of the path. */
  predicate Scan(state: State, depth: int, s: string)
    decreases |s|
  {
    if s == "" then
      (if state == HaveSlashDotDot then depth - 1 else depth) < 0
    else
      var c, t := s[0], s[1..];
      match state
      case Initial => if c == '/' then Scan(HaveSlash, depth + 1, t) else Scan(Initial, depth, t)
      case Base => if c == '/' then Scan(HaveSlash, depth, t) else Scan(Base, depth, t)
      case HaveDot =>
        if c == '.' then Scan(HaveDotDot, depth, t)
        else if c == '/' then Scan(HaveSlash, depth, t)
        else Scan(Base, depth, t)
      case HaveSlashDot =>
        if c == '.' then Scan(HaveSlashDotDot, depth, t)
        else if c == '/' then Scan(HaveSlash, depth, t)
        else Scan(Base, depth, t)
      case HaveDotDot =>
        if c == '/' then depth - 1 < 0 || Scan(HaveSlash, depth - 1, t) else Scan(Base, depth, t)
      case HaveSlashDotDot =>
        if c == '/' then depth - 1 < 0 || Scan(HaveSlash, depth - 1, t) else Scan(Base, depth, t)
      case HaveSlash =>
        if c == '.' then Scan(HaveSlashDot, depth, t)
        else if c == '/' then Scan(HaveSlash, depth, t)
        else Scan(Base, depth + 1, t)
  }

  /** check_local_root_escape: true means the path is refused.  It is refused exactly when a
      prefix of its components dips below the root, counting names that start with a dot as
      not descending. */
  method CheckLocalRootEscape(location: CString) returns (refused: bool)
    ensures refused <==> Escapes(location, 0)
  {
    DipsIsSomePrefix(0, Split(location), 0);
    var pos, state, depth := 0, Initial, 0;
    assert location[0..] == location;
    while pos < |location| && location[pos] == '/'
      invariant 0 <= pos <= |location|
      invariant Dips(0, Split(location[pos..]), 0) == Dips(0, Split(location), 0)
    {
      SlashSkipped(location[pos..]);
      assert location[pos..][1..] == location[pos + 1..];
      pos := pos + 1;
    }
    ghost var path := location[pos..];
    if pos < |location| && location[pos] == '.' {
      pos := pos + 1;
      if pos < |location| && location[pos] == '.' {
        state := HaveDotDot;
        pos := pos + 1;
        assert path == ".." + location[pos..];
        StartDotDot(location[pos..]);
        if pos == |location| {
          return true;
        }
      } else {
        state := HaveDot;
        assert path == "." + location[pos..];
        StartDot(location[pos..]);
      }
    } else {
      StartName(path);
    }
    while pos < |location|
      invariant 0 <= pos <= |location|
      invariant Scan(state, depth, location[pos..]) == Dips(0, Split(path), 0)
    {
      var c := location[pos];
      assert location[pos..][0] == c && location[pos..][1..] == location[pos + 1..];
      match state {
        case Initial =>
          if c == '/' { depth := depth + 1; state := HaveSlash; }
        case Base =>
          if c == '/' { state := HaveSlash; }
        case HaveDot =>
          if c == '.' { state := HaveDotDot; } else if c == '/' { state := HaveSlash; } else { state := Base; }
        case HaveSlashDot =>
          if c == '.' { state := HaveSlashDotDot; } else if c == '/' { state := HaveSlash; } else { state := Base; }
        case HaveDotDot =>
          if c == '/' {
            depth := depth - 1;
            state := HaveSlash;
            if depth < 0 { return true; }
          } else {
            state := Base;
          }
        case HaveSlashDotDot =>
          if c == '/' {
            depth := depth - 1;
            state := HaveSlash;
            if depth < 0 { return true; }
          } else {
            state := Base;
          }
        case HaveSlash =>
          if c == '.' { state := HaveSlashDot; } else if c != '/' { depth := depth + 1; state := Base; }
      }
      pos := pos + 1;
    }
    if state == HaveSlashDotDot {
      depth := depth - 1;
    }
    return depth < 0;
  }

  // ----- What each scanner state stands for -----

  lemma DipsCons(d: int, x: string, r: seq<string>)
    ensures Dips(d, [x] + r, 0) == (d + Weight(x, 0) < 0 || Dips(d + Weight(x, 0), r, 0))
  {
    assert ([x] + r)[1..] == r;
  }

  lemma SlashSkipped(s: string)
    requires s != "" && s[0] == '/'
    ensures Dips(0, Split(s), 0) == Dips(0, Split(s[1..]), 0)
  {
    DipsCons(0, "", Split(s[1..]));
  }

  /** What a state remembers of the component being scanned. */
  function Pending(state: State): string {
    match state
    case HaveDot => "."
    case HaveSlashDot => "."
    case HaveDotDot => ".."
    case HaveSlashDotDot => ".."
    case _ => ""
  }

  function Meaning(state: State, d: int, s: string): bool {
    match state
    case Base => Dips(d, Rest(s), 0)
    case Initial => Dips(d + 1, Rest(s), 0)
    case _ => Dips(d, [Pending(state) + First(s)] + Rest(s), 0)
  }

  /** Scanning from any state decides whether the remaining components dip below the root. */
  lemma {:induction false} ScanMeans(state: State, d: int, s: string)
    requires d >= 0
    requires state == HaveDot ==> s == "" || s[0] != '.'
    requires state == HaveDotDot ==> s != ""
    ensures Scan(state, d, s) == Meaning(state, d, s)
    decreases |s|
  {
    var x := Pending(state) + First(s);
    DipsCons(d, x, Rest(s));
    if s == "" {
      assert x == Pending(state);
    } else {
      var c, t := s[0], s[1..];
      if c == '/' {
        assert x == Pending(state);
        SlashMeaning(t);
        if state == Initial {
          ScanMeans(HaveSlash, d + 1, t);
        } else if state == HaveDotDot || state == HaveSlashDotDot {
          if d > 0 {
            ScanMeans(HaveSlash, d - 1, t);
          }
        } else {
          ScanMeans(HaveSlash, d, t);
        }
      } else {
        match state
        case Initial => ScanMeans(Initial, d, t);
        case Base => ScanMeans(Base, d, t);
        case HaveSlash => 
          if c == '.' {
            ScanMeans(HaveSlashDot, d, t);
            assert x == "." + First(t);
          } else {
            ScanMeans(Base, d + 1, t);
            assert x[0] == c;
          }
        case HaveSlashDot => 
          if c == '.' {
            ScanMeans(HaveSlashDotDot, d, t);
            assert x == ".." + First(t);
          } else {
            ScanMeans(Base, d, t);
            assert x[0] == '.' && x[1] == c;
          }
        case HaveDot =>
          ScanMeans(Base, d, t);
          assert x[0] == '.' && x[1] == c;
        case HaveSlashDotDot =>
          ScanMeans(Base, d, t);
          assert x[0] == '.' && |x| > 2;
        case HaveDotDot =>
          ScanMeans(Base, d, t);
          assert x[0] == '.' && |x| > 2;
      }
    }
  }

  lemma SlashMeaning(t: string)
    ensures forall d :: Meaning(HaveSlash, d, t) == Dips(d, Split(t), 0)
  {
    assert "" + First(t) == First(t);
  }

  lemma DotPrefix(t: string)
    ensures First("." + t) == "." + First(t) && Rest("." + t) == Rest(t)
  {
    assert ("." + t)[1..] == t;
  }

  // The three ways the scan can start, once leading slashes are gone.

  lemma StartDotDot(t: string)
    ensures Dips(0, Split(".." + t), 0) == (t == "" || Scan(HaveDotDot, 0, t))
  {
    assert "." + ("." + t) == ".." + t;
    DotPrefix(t);
    DotPrefix("." + t);
    assert "." + ("." + First(t)) == ".." + First(t);
    if t == "" {
      DipsCons(0, "..", []);
    } else {
      ScanMeans(HaveDotDot, 0, t);
    }
  }

  lemma StartDot(t: string)
    requires t == "" || t[0] != '.'
    ensures Dips(0, Split("." + t), 0) == Scan(HaveDot, 0, t)
  {
    DotPrefix(t);
    ScanMeans(HaveDot, 0, t);
  }

  lemma StartName(path: string)
    requires path == "" || (path[0] != '/' && path[0] != '.')
    ensures Dips(0, Split(path), 0) == Scan(Initial, 0, path)
  {
    DipsCons(0, First(path), Rest(path));
    if path != "" {
      assert First(path)[0] == path[0];
      ScanMeans(Initial, 0, path);
    }
  }

  // ----- What the check guarantees -----

  lemma {:induction false} HiddenDepth(cs: seq<string>)
    ensures Depth(cs, 0) <= Depth(cs, 1)
    ensures (forall c :: c in cs ==> !DotName(c)) ==> Depth(cs, 0) == Depth(cs, 1)
  {
    if cs != [] {
      HiddenDepth(cs[..|cs| - 1]);
    }
  }

  /** An accepted path never leaves the root, and the check is exact on paths without names
      that start with a dot. */
  lemma AcceptedStaysInside(path: string)
    ensures Escapes(path, 1) ==> Escapes(path, 0)
    ensures (forall c :: c in Split(path) ==> !DotName(c)) ==> (Escapes(path, 0) <==> Escapes(path, 1))
  {
    forall k | 0 <= k <= |Split(path)|
      ensures Depth(Split(path)[..k], 0) <= Depth(Split(path)[..k], 1)
      ensures (forall c :: c in Split(path) ==> !DotName(c)) ==>
                Depth(Split(path)[..k], 0) == Depth(Split(path)[..k], 1)
    {
      HiddenDepth(Split(path)[..k]);
    }
  }

  /** A name without slashes is the first component of a path that begins with it. */
  lemma {:induction false} SplitName(c: string, t: string)
    requires '/' !in c
    ensures First(c + "/" + t) == c && Rest(c + "/" + t) == Split(t)
  {
    if c == "" {
      assert (c + "/" + t)[1..] == t;
    } else {
      SplitName(c[1..], t);
      assert (c + "/" + t)[1..] == c[1..] + "/" + t;
      assert c == [c[0]] + c[1..];
    }
  }

  lemma SplitUp()
    ensures Split("..") == [".."]
  {
    DotPrefix("");
    DotPrefix(".");
    assert "." + "" == "." && "." + "." == "..";
  }

  /** Exactness fails with every such name: going down into it and back up stays inside the
      root, and is refused. */
  lemma HiddenNameRefused(c: string)
    requires '/' !in c && DotName(c)
    ensures Escapes(c + "/" + "..", 0) && !Escapes(c + "/" + "..", 1)
  {
    var cs := [c, ".."];
    SplitName(c, "..");
    SplitUp();
    assert Split(c + "/" + "..") == cs;
    DipsIsSomePrefix(0, cs, 0);
    DipsIsSomePrefix(0, cs, 1);
    assert cs[1..] == [".."] && [".."][1..] == [];
    assert Dips(0, cs, 0) && !Dips(0, cs, 1);
  }

  /** The path has no ordinary components but these. */
  predicate Uses(path: string, names: set<string>) {
    forall c :: c in Split(path) ==> c in ["", ".", ".."] || c in names
  }

  /** On the paths over a set of names, the check refuses exactly the paths that leave the root
      if and only if none of the names starts with a dot. */
  lemma ExactWithoutDotNames(names: set<CString>)
    requires forall c :: c in names ==> '/' !in c
    ensures (forall c :: c in names ==> !DotName(c)) <==>
      forall path: CString :: Uses(path, names) ==> (Escapes(path, 0) <==> Escapes(path, 1))
  {
    if c :| c in names && DotName(c) {
      var path: CString := c + "/" + "..";
      HiddenNameRefused(c);
      SplitName(c, "..");
      SplitUp();
      assert Uses(path, names);
    } else {
      forall path: CString | Uses(path, names)
        ensures Escapes(path, 0) <==> Escapes(path, 1)
      {
        AcceptedStaysInside(path);
      }
    }
  }
}
