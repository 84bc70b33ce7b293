/** How a request's method and URL path become an action on the counters, and how the suffix
    picks the reply format. */
module Routing {

  /** strings.TrimLeft(s, "/"): drop every leading '/'. */
  function TrimLeftSlashes(s: string): (r: string)
    ensures |r| <= |s| && r == s[|s| - |r|..]
    ensures forall k :: 0 <= k < |s| - |r| ==> s[k] == '/'
    ensures r == [] || r[0] != '/'
  {
    if s != [] && s[0] == '/' then TrimLeftSlashes(s[1..]) else s
  }

  /** strings.TrimRight(s, "/"): drop every trailing '/'. */
  function TrimRightSlashes(s: string): (r: string)
    ensures |r| <= |s| && r == s[..|r|]
    ensures forall k :: |r| <= k < |s| ==> s[k] == '/'
    ensures r == [] || r[|r| - 1] != '/'
  {
    if s != [] && s[|s| - 1] == '/' then TrimRightSlashes(s[..|s| - 1]) else s
  }

  /** strings.Trim(path, "/"). */
  function Trim(path: string): string {
    TrimRightSlashes(TrimLeftSlashes(path))
  }

  /** The trimmed path is the part of the path between its leading and its trailing run of '/',
      and neither starts nor ends with '/'. */
  lemma TrimIsSlice(path: string)
    ensures exists a, b :: 0 <= a <= b <= |path| && Trim(path) == path[a..b] &&
              (forall k :: 0 <= k < a ==> path[k] == '/') &&
              (forall k :: b <= k < |path| ==> path[k] == '/')
    ensures Trim(path) == [] || (Trim(path)[0] != '/' && Trim(path)[|Trim(path)| - 1] != '/')
  {
    var left := TrimLeftSlashes(path);
    var r := Trim(path);
    var a := |path| - |left|;
    var b := a + |r|;
    assert r == left[..|r|];
    assert r == path[a..b];
    forall k | b <= k < |path| ensures path[k] == '/' {
      assert path[k] == left[k - a];
    }
    assert 0 <= a <= b <= |path| && r == path[a..b] &&
           (forall k :: 0 <= k < a ==> path[k] == '/') &&
           (forall k :: b <= k < |path| ==> path[k] == '/');
  }

  /** strings.Index(s, "."): the position of the first '.', or -1 when there is none. */
  function IndexDot(s: string): (idx: int)
    ensures -1 <= idx < |s|
    ensures idx == -1 <==> '.' !in s
    ensures idx >= 0 ==> s[idx] == '.' && forall k :: 0 <= k < idx ==> s[k] != '.'
  {
    if s == [] then -1
    else if s[0] == '.' then 0
    else
      var rest := IndexDot(s[1..]);
      if rest == -1 then -1 else rest + 1
  }

  /** strings.TrimSuffix(s, suffix). */
  function TrimSuffix(s: string, suffix: string): (r: string)
    ensures |suffix| <= |s| && s[|s| - |suffix|..] == suffix ==> r + suffix == s
    ensures !(|suffix| <= |s| && s[|s| - |suffix|..] == suffix) ==> r == s
  {
    if |suffix| <= |s| && s[|s| - |suffix|..] == suffix then s[..|s| - |suffix|] else s
  }

  /** What ServeHTTP decides before it touches the counters. */
  datatype Action =
    | NotFound                              // 404, counters untouched
    | BadRequest                            // 400, counters untouched
    | Count(id: string, suffix: string)     // GET: Get(id), then reply in the suffix's format
    | Reset(id: string)                     // DELETE: Delete(id), empty 200 reply

  /** The id and suffix of a trimmed path: split at the first '.', the id being what
      TrimSuffix leaves once "." + suffix is cut off. */
  function SplitId(trimmed: string): (string, string) {
    var idx := IndexDot(trimmed);
    if idx >= 0 then
      var suffix := trimmed[idx + 1..];
      (TrimSuffix(trimmed, "." + suffix), suffix)
    else (trimmed, "")
  }

  /** The path parsing and method dispatch of ServeHTTP. */
  function Route(verb: string, path: string): Action {
    var trimmed := Trim(path);
    if trimmed == "" || trimmed == "favicon.ico" then NotFound
    else
      var (id, suffix) := SplitId(trimmed);
      if verb == "GET" then Count(id, suffix)
      else if verb == "DELETE" then Reset(id)
      else BadRequest
  }

  /** Cutting "." + suffix off leaves exactly the text before the first '.'; with no '.' the
      whole trimmed path is the id and the suffix is empty. */
  lemma SplitAtFirstDot(trimmed: string)
    ensures IndexDot(trimmed) >= 0 ==>
              SplitId(trimmed) == (trimmed[..IndexDot(trimmed)], trimmed[IndexDot(trimmed) + 1..])
    ensures IndexDot(trimmed) == -1 ==> SplitId(trimmed) == (trimmed, "")
  {
    var idx := IndexDot(trimmed);
    if idx >= 0 {
      var suffix := trimmed[idx + 1..];
      assert trimmed == trimmed[..idx] + ("." + suffix);
      assert trimmed[|trimmed| - |"." + suffix|..] == "." + suffix;
    }
  }

  /** An empty trimmed path or "favicon.ico" gets 404, whatever the method; nothing else does. */
  lemma NotFoundExactly(verb: string, path: string)
    ensures Route(verb, path) == NotFound <==> Trim(path) == "" || Trim(path) == "favicon.ico"
  {
  }

  /** Every routed path that is not a 404 is a GET, a DELETE, or a 400 for any other method, and
      GET and DELETE name the same id. */
  lemma DispatchByMethod(verb: string, path: string)
    requires Trim(path) != "" && Trim(path) != "favicon.ico"
    ensures var (id, suffix) := SplitId(Trim(path));
            && (verb == "GET" <==> Route(verb, path) == Count(id, suffix))
            && (verb == "DELETE" <==> Route(verb, path) == Reset(id))
            && (verb != "GET" && verb != "DELETE" <==> Route(verb, path) == BadRequest)
  {
  }

  /** The reply formats render can choose. */
  datatype Format = Text | Jpeg | Gif | Png

  /** render's switch on the suffix; anything unlisted, the empty suffix included, is PNG. */
  function FormatOf(suffix: string): (f: Format)
    ensures f == Text <==> suffix == "txt"
    ensures f == Jpeg <==> suffix == "jpg" || suffix == "jpeg"
    ensures f == Gif <==> suffix == "gif"
    ensures f == Png <==> suffix !in {"txt", "jpg", "jpeg", "gif"}
  {
    match suffix
    case "txt" => Text
    case "jpg" => Jpeg
    case "jpeg" => Jpeg
    case "gif" => Gif
    case _ => Png
  }

  /** The Content-type header render sends for each format. */
  function ContentType(f: Format): string {
    match f
    case Text => "text/plain"
    case Jpeg => "image/jpeg"
    case Gif => "image/gif"
    case Png => "image/png"
  }

  /** A run of '/' in front changes nothing the left trim keeps. */
  lemma {:induction false} TrimLeftRun(lead: nat, u: string)
    ensures TrimLeftSlashes(seq(lead, _ => '/') + u) == TrimLeftSlashes(u)
  {
    if lead > 0 {
      assert (seq(lead, _ => '/') + u)[1..] == seq(lead - 1, _ => '/') + u;
      TrimLeftRun(lead - 1, u);
    } else {
      assert seq(lead, _ => '/') + u == u;
    }
  }

  /** A run of '/' at the end changes nothing the right trim keeps. */
  lemma {:induction false} TrimRightRun(u: string, trail: nat)
    ensures TrimRightSlashes(u + seq(trail, _ => '/')) == TrimRightSlashes(u)
  {
    if trail > 0 {
      var v := u + seq(trail, _ => '/');
      assert v[..|v| - 1] == u + seq(trail - 1, _ => '/');
      TrimRightRun(u, trail - 1);
    } else {
      assert u + seq(trail, _ => '/') == u;
    }
  }

  /** Runs of '/' around a path with no '/' at its ends are exactly what Trim removes. */
  lemma TrimAround(lead: nat, t: string, trail: nat)
    requires t == [] || (t[0] != '/' && t[|t| - 1] != '/')
    ensures Trim(seq(lead, _ => '/') + t + seq(trail, _ => '/')) == t
  {
    var u := t + seq(trail, _ => '/');
    assert seq(lead, _ => '/') + t + seq(trail, _ => '/') == seq(lead, _ => '/') + u;
    TrimLeftRun(lead, u);
    if t == [] {
      assert u == [] + seq(trail, _ => '/');
      TrimLeftRun(trail, []);
      assert seq(trail, _ => '/') + [] == u;
    }
    TrimRightRun(t, trail);
  }

  /** A path made of slashes, an id with no '.', a '.', a suffix and slashes is routed to that id
      and that suffix. The id may be empty ("/.txt" counts the empty id) and may hold '/'
      ("/a/b.txt" counts "a/b"); the suffix may hold more dots ("/x.tar.gz" has suffix "tar.gz"). */
  lemma RouteOfIdAndSuffix(verb: string, lead: nat, id: string, suffix: string, trail: nat)
    requires id == [] || id[0] != '/'
    requires '.' !in id
    requires suffix == [] || suffix[|suffix| - 1] != '/'
    requires id + "." + suffix != "favicon.ico"
    ensures var path := seq(lead, _ => '/') + id + "." + suffix + seq(trail, _ => '/');
            Route(verb, path) ==
              if verb == "GET" then Count(id, suffix)
              else if verb == "DELETE" then Reset(id)
              else BadRequest
  {
    TrimOfIdAndSuffix(lead, id, suffix, trail);
    SplitOfIdAndSuffix(id, suffix);
  }

  /** Trim keeps exactly the id, the '.' and the suffix. */
  lemma TrimOfIdAndSuffix(lead: nat, id: string, suffix: string, trail: nat)
    requires id == [] || id[0] != '/'
    requires suffix == [] || suffix[|suffix| - 1] != '/'
    ensures Trim(seq(lead, _ => '/') + id + "." + suffix + seq(trail, _ => '/')) == id + "." + suffix
  {
    var t := id + "." + suffix;
    assert t[0] != '/' by {
      if id == [] { assert t[0] == '.'; } else { assert t[0] == id[0]; }
    }
    assert t[|t| - 1] != '/' by {
      if suffix == [] { assert t[|t| - 1] == '.'; } else { assert t[|t| - 1] == suffix[|suffix| - 1]; }
    }
    assert seq(lead, _ => '/') + id + "." + suffix + seq(trail, _ => '/') == seq(lead, _ => '/') + t + seq(trail, _ => '/');
    TrimAround(lead, t, trail);
  }

  /** With no '.' in the id, the split finds the '.' right after it. */
  lemma SplitOfIdAndSuffix(id: string, suffix: string)
    requires '.' !in id
    ensures SplitId(id + "." + suffix) == (id, suffix)
  {
    var t := id + "." + suffix;
    assert t[|id|] == '.';
    SplitAtFirstDot(t);
    assert t[..|id|] == id && t[|id| + 1..] == suffix;
  }
}
