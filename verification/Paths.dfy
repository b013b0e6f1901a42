/** Path resolution of api/file_handler.go: GetMerklePathData and FindFileHandler's path splitting. */
module Paths {
  import opened Wrappers
  import opened Text

  datatype Child = Child(name: string, merkle: Bytes)

  /** What is fetched for a merkle: a file's bytes, or bytes that decode as folder data. */
  datatype Content = File(data: Bytes) | Folder(data: Bytes, children: seq<Child>)

  /** Local store and network together: some merkles are found, others are not. */
  type Fetch = Bytes -> Option<Content>

  datatype PathError = NotFetched | NotAFolder | NoSuchChild | CannotRender

  /** What is served: stored bytes, or the page rendered for a folder. */
  datatype Served = Raw(content: Content) | Page(merkle: Bytes, children: seq<Child>)

  /** The data and its file name; an error keeps the name reached. */
  datatype Resolved = Found(served: Served, name: string) | Failed(error: PathError, name: string)

  function FirstChild(children: seq<Child>, name: string): (c: Option<Child>)
    ensures c.None? <==> forall d | d in children :: d.name != name
  {
    if children == [] then None
    else if children[0].name == name then Some(children[0])
    else FirstChild(children[1..], name)
  }

  /** The child found is the first of its name. */
  lemma {:induction false} FirstChildIsFirst(children: seq<Child>, name: string) returns (i: nat)
    requires FirstChild(children, name).Some?
    ensures i < |children| && FirstChild(children, name) == Some(children[i]) && children[i].name == name
    ensures forall j | 0 <= j < i :: children[j].name != name
  {
    if children[0].name == name {
      i := 0;
    } else {
      i := FirstChildIsFirst(children[1..], name);
      i := i + 1;
    }
  }

  /** GetMerklePathData; `renders` says whether the page template accepts the folder. */
  function Resolve(fetch: Fetch, renders: Bytes -> bool, root: Bytes, path: seq<string>, name: string, raw: bool): Resolved
    decreases |path|
  {
    match fetch(root)
    case None => Failed(NotFetched, name)
    case Some(content) =>
      if path != [] then
        if content.File? then Failed(NotAFolder, name)
        else
          match FirstChild(content.children, path[0])
          case None => Failed(NoSuchChild, name)
          case Some(child) => Resolve(fetch, renders, child.merkle, path[1..], child.name, raw)
      else if raw || content.File? then Found(Raw(content), name)
      else if !renders(root) then Failed(CannotRender, name)
      else Found(Page(root, content.children), name + ".html")
  }

  /**
   * At the end of the path: the stored bytes as they are on request, or for a file; else the page of
   * the folder, under the name with .html behind it, or an error if it cannot be rendered.
   */
  lemma {:induction false} ResolveEnds(fetch: Fetch, renders: Bytes -> bool, root: Bytes, name: string, raw: bool)
    ensures var r := Resolve(fetch, renders, root, [], name, raw);
            && (fetch(root) == None <==> r == Failed(NotFetched, name))
            && (fetch(root).Some? && (raw || fetch(root).value.File?) ==> r == Found(Raw(fetch(root).value), name))
            && (fetch(root).Some? && !raw && fetch(root).value.Folder? ==>
                  r == if renders(root) then Found(Page(root, fetch(root).value.children), name + ".html")
                       else Failed(CannotRender, name))
  {
  }

  /**
   * Before the end: what cannot be fetched, is no folder, or has no child of that name fails here,
   * under the name reached.
   */
  lemma {:induction false} ResolveFails(fetch: Fetch, renders: Bytes -> bool, root: Bytes, path: seq<string>, name: string,
                                        raw: bool)
    requires path != []
    ensures var r := Resolve(fetch, renders, root, path, name, raw);
            && (fetch(root) == None ==> r == Failed(NotFetched, name))
            && (fetch(root).Some? && fetch(root).value.File? ==> r == Failed(NotAFolder, name))
            && (fetch(root).Some? && fetch(root).value.Folder? && LacksChild(fetch(root).value.children, path[0]) ==>
                  r == Failed(NoSuchChild, name))
            && (fetch(root).Some? && fetch(root).value.Folder? ==>
                  forall i | 0 <= i < |fetch(root).value.children| && IsFirstOf(fetch(root).value.children, i, path[0]) ::
                    var child := fetch(root).value.children[i];
                    r == Resolve(fetch, renders, child.merkle, path[1..], child.name, raw))
  {
    if fetch(root).Some? && fetch(root).value.Folder? {
      var children := fetch(root).value.children;
      forall i | 0 <= i < |children| && IsFirstOf(children, i, path[0])
        ensures FirstChild(children, path[0]) == Some(children[i])
      {
        var j := FirstChildIsFirst(children, path[0]);
      }
    }
  }

  predicate LacksChild(children: seq<Child>, name: string) {
    forall child | child in children :: child.name != name
  }

  predicate IsFirstOf(children: seq<Child>, i: nat, name: string)
    requires i < |children|
  {
    children[i].name == name && forall j | 0 <= j < i :: children[j].name != name
  }

  /** Where walking down the components leads: the merkle and name reached, or the error met on the way. */
  datatype Walked = Reached(merkle: Bytes, name: string) | Stuck(error: PathError, name: string)

  function StepDown(fetch: Fetch, at: Walked, component: string): Walked {
    match at
    case Stuck(_, _) => at
    case Reached(merkle, name) =>
      match fetch(merkle)
      case None => Stuck(NotFetched, name)
      case Some(File(_)) => Stuck(NotAFolder, name)
      case Some(Folder(_, children)) =>
        match FirstChild(children, component)
        case None => Stuck(NoSuchChild, name)
        case Some(child) => Reached(child.merkle, child.name)
  }

  /** Walking is one first-match step after the other. */
  function Walk(fetch: Fetch, start: Walked, path: seq<string>): Walked {
    if path == [] then start else StepDown(fetch, Walk(fetch, start, path[..|path| - 1]), path[|path| - 1])
  }

  lemma {:induction false} WalkFirst(fetch: Fetch, start: Walked, path: seq<string>)
    requires path != []
    ensures Walk(fetch, start, path) == Walk(fetch, StepDown(fetch, start, path[0]), path[1..])
  {
    if |path| > 1 {
      var init := path[..|path| - 1];
      WalkFirst(fetch, start, init);
      assert path[1..][..|path| - 2] == init[1..];
    } else {
      assert path[..0] == [];
    }
  }

  lemma {:induction false} WalkStuck(fetch: Fetch, at: Walked, path: seq<string>)
    requires at.Stuck?
    ensures Walk(fetch, at, path) == at
  {
    if path != [] {
      WalkStuck(fetch, at, path[..|path| - 1]);
    }
  }

  /**
   * Resolving p ++ q is walking p by first matching child names and resolving q from the merkle
   * reached; it fails on p exactly when, how and where the walk fails.
   */
  lemma {:induction false} ResolveComposes(fetch: Fetch, renders: Bytes -> bool, root: Bytes, p: seq<string>, q: seq<string>,
                                           name: string, raw: bool)
    ensures Resolve(fetch, renders, root, p + q, name, raw) ==
            match Walk(fetch, Reached(root, name), p)
            case Stuck(error, at) => Failed(error, at)
            case Reached(merkle, reached) => Resolve(fetch, renders, merkle, q, reached, raw)
    decreases |p|
  {
    if p == [] {
      assert p + q == q;
    } else {
      WalkFirst(fetch, Reached(root, name), p);
      assert (p + q)[1..] == p[1..] + q;
      match StepDown(fetch, Reached(root, name), p[0])
      case Stuck(error, at) =>
        WalkStuck(fetch, Stuck(error, at), p[1..]);
      case Reached(merkle, reached) =>
        ResolveComposes(fetch, renders, merkle, p[1..], q, reached, raw);
    }
  }

  /* ---------- components ---------- */

  function NonEmpty(parts: seq<string>): seq<string> {
    if parts == [] then []
    else NonEmpty(parts[..|parts| - 1]) + (if parts[|parts| - 1] != "" then [parts[|parts| - 1]] else [])
  }

  /** The components of a request path. */
  function Components(path: string): seq<string> {
    NonEmpty(Split(path))
  }

  /** FindFileHandler's filter loop. */
  method FilterPath(pathString: string) returns (filteredPaths: seq<string>)
    ensures filteredPaths == Components(pathString)
  {
    var paths := Split(pathString);
    filteredPaths := [];
    for i := 0 to |paths|
      invariant filteredPaths == NonEmpty(paths[..i])
    {
      assert paths[..i + 1][..i] == paths[..i];
      if paths[i] != "" {
        filteredPaths := filteredPaths + [paths[i]];
      }
    }
    assert paths[..|paths|] == paths;
  }

  lemma {:induction false} NonEmptyConcat(a: seq<string>, b: seq<string>)
    ensures NonEmpty(a + b) == NonEmpty(a) + NonEmpty(b)
  {
    if b == [] {
      assert a + b == a;
    } else {
      NonEmptyConcat(a, b[..|b| - 1]);
      assert (a + b)[..|a + b| - 1] == a + b[..|b| - 1];
    }
  }

  lemma {:induction false} CutAtFirstSlash(a: string) returns (head: string, tail: string)
    requires '/' in a
    ensures a == head + "/" + tail && '/' !in head
  {
    if a[0] == '/' {
      head, tail := "", a[1..];
    } else {
      head, tail := CutAtFirstSlash(a[1..]);
      assert a == [a[0]] + a[1..];
      head := [a[0]] + head;
    }
  }

  lemma {:induction false} SplitConcat(a: string, b: string)
    ensures Split(a + "/" + b) == Split(a) + Split(b)
    decreases |a|
  {
    hide Split;
    if '/' in a {
      var head, tail := CutAtFirstSlash(a);
      SplitAtSlash(head, tail);
      SplitAtSlash(head, tail + "/" + b);
      SplitConcat(tail, b);
      assert a + "/" + b == head + "/" + (tail + "/" + b);
    } else {
      SplitAtSlash(a, b);
      SplitWithoutSlash(a);
    }
  }

  /** A slash separates: the components around it are those of the two sides. */
  lemma ComponentsAtSlash(a: string, b: string)
    ensures Components(a + "/" + b) == Components(a) + Components(b)
  {
    SplitConcat(a, b);
    NonEmptyConcat(Split(a), Split(b));
  }

  lemma ComponentsOfEmpty()
    ensures Components("") == []
  {
    assert Split("")[..0] == [];
  }

  /** A further slash at the front, at the end or beside another slash changes nothing. */
  lemma {:induction false} ExtraSlashes(a: string, b: string)
    ensures Components("/" + a) == Components(a)
    ensures Components(a + "/") == Components(a)
    ensures Components(a + "//" + b) == Components(a + "/" + b)
  {
    ComponentsOfEmpty();
    ComponentsAtSlash("", a);
    assert "" + "/" + a == "/" + a;
    ComponentsAtSlash(a, "");
    assert a + "/" + "" == a + "/";
    ComponentsAtSlash(a, b);
    ComponentsAtSlash(a + "/", b);
    assert a + "/" + "/" + b == a + "//" + b;
  }

  function JoinSlash(parts: seq<string>): string {
    if parts == [] then "" else JoinSlash(parts[..|parts| - 1]) + "/" + parts[|parts| - 1]
  }

  /** Joining slash-free, non-empty names and splitting again gives the names back. */
  lemma {:induction false} ComponentsOfJoin(parts: seq<string>)
    requires forall i | 0 <= i < |parts| :: parts[i] != "" && '/' !in parts[i]
    ensures Components(JoinSlash(parts)) == parts
  {
    if parts == [] {
      ComponentsOfEmpty();
    } else {
      var last := parts[|parts| - 1];
      ComponentsOfJoin(parts[..|parts| - 1]);
      ComponentsAtSlash(JoinSlash(parts[..|parts| - 1]), last);
      SplitWithoutSlash(last);
      assert [last][..0] == [];
      assert NonEmpty([last]) == [last];
      assert parts == parts[..|parts| - 1] + [last];
    }
  }
}
