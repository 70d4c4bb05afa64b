/**
 * The destination rewriting done by the `publish` handler: the captured path
 * loses every `v1/publish/` segment, then every `v2/publish/` segment, and,
 * when the relay runs inside a container, every `localhost` becomes
 * `host.docker.internal`.
 */
module Target {
  import opened Rewrite

  const V1Route: string := "v1/publish/"
  const V2Route: string := "v2/publish/"
  const LocalHost: string := "localhost"
  const DockerHost: string := "host.docker.internal"

  /**
   * The two route-stripping passes, `v1/publish/` first. Stripping only
   * deletes characters: it never adds, changes or reorders any.
   */
  function StripRoute(path: string): (r: string)
    ensures IsSubsequence(r, path) && |r| <= |path|
  {
    var once := ReplaceAll(path, V1Route, "");
    var twice := ReplaceAll(once, V2Route, "");
    RemoveAllDeletesOnly(path, V1Route);
    RemoveAllDeletesOnly(once, V2Route);
    SubsequenceTransitive(twice, once, path);
    twice
  }

  /**
   * The target the handler enqueues for a captured path. Outside a container
   * it is the stripped path, so it only deletes characters; inside one the
   * host rewrite never makes it shorter than the stripped path.
   */
  function NormalizeTarget(path: string, inContainer: bool): (r: string)
    ensures !inContainer ==> IsSubsequence(r, path) && |r| <= |path|
    ensures |StripRoute(path)| <= |r|
  {
    var target := StripRoute(path);
    if inContainer then ReplaceAll(target, LocalHost, DockerHost) else target
  }

  /** Stripping leaves the path as it is exactly when neither route segment occurs in it. */
  lemma StripRouteUnchanged(path: string)
    ensures StripRoute(path) == path <==> !Occurs(path, V1Route) && !Occurs(path, V2Route)
  {
    var once := ReplaceAll(path, V1Route, "");
    if Occurs(path, V1Route) {
      ReplaceAllChanges(path, V1Route, "");
    } else {
      ReplaceAllUnchanged(path, V1Route, "");
      ReplaceAllUnchangedIff(once, V2Route, "");
    }
  }

  /**
   * Outside a container the target is the stripped path; it equals the
   * captured path exactly when no route segment occurs. Inside a container a
   * path with no route segment and no `localhost` is enqueued unchanged too.
   */
  lemma NormalizeTargetUnchanged(path: string)
    ensures NormalizeTarget(path, false) == path <==> !Occurs(path, V1Route) && !Occurs(path, V2Route)
    ensures !Occurs(path, V1Route) && !Occurs(path, V2Route) && !Occurs(path, LocalHost)
            ==> NormalizeTarget(path, true) == path
  {
    StripRouteUnchanged(path);
    if !Occurs(path, V1Route) && !Occurs(path, V2Route) && !Occurs(path, LocalHost) {
      ReplaceAllUnchanged(path, LocalHost, DockerHost);
    }
  }

  /**
   * The container flag makes a difference exactly when the stripped path
   * contains `localhost`; each rewrite lengthens the target.
   */
  lemma ContainerRewriteOnlyOnLocalHost(path: string)
    ensures NormalizeTarget(path, true) == NormalizeTarget(path, false) <==> !Occurs(StripRoute(path), LocalHost)
    ensures |NormalizeTarget(path, false)| <= |NormalizeTarget(path, true)|
  {
    ReplaceAllUnchangedIff(StripRoute(path), LocalHost, DockerHost);
  }

  /** The letters of the constants that the examples below rely on. */
  lemma Letters()
    ensures V1Route[0] == 'v' && 'v' !in V1Route[1..] && 'c' !in V1Route
    ensures V2Route[0] == 'v' && LocalHost[2] == 'c'
  {
    assert V1Route[1..] == "1/publish/";
  }

  lemma V2RouteSplit()
    ensures "v2/" + "publish/" == V2Route
  {
  }

  lemma V1RouteSplit()
    ensures "v1/p" + "ublish/" == V1Route
  {
  }

  lemma LocalHostSplit()
    ensures "loc" + "alhost" == LocalHost
  {
  }

  lemma DockerHostStart()
    ensures "local" + DockerHost == LocalHost + ".docker.internal"
  {
  }

  /**
   * A route segment is removed wherever it stands, not only at the front:
   * the text on both sides of it is kept and joined.
   */
  lemma StripsInnerSegment(before: string, after: string)
    requires 'v' !in before && 'v' !in after
    ensures NormalizeTarget(before + V1Route + after, false) == before + after
  {
    var path := before + V1Route + after;
    Letters();
    MatchInside(before, V1Route, after);
    NoMatchBefore(path, V1Route, |before|);
    ReplaceAllAtFirstMatch(path, V1Route, "", |before|);
    AbsentChar(after, V1Route, 0);
    ReplaceAllUnchanged(after, V1Route, "");
    EmptyMiddle(before, after);
    AbsentChar(before + after, V2Route, 0);
    ReplaceAllUnchanged(before + after, V2Route, "");
  }

  /** Removing the route segment that splits `v2/` from `publish/`. */
  lemma V1PassJoinsV2Segment(rest: string)
    requires 'v' !in rest
    ensures ReplaceAll("v2/" + V1Route + ("publish/" + rest), V1Route, "") == V2Route + rest
  {
    var tail := "publish/" + rest;
    var path := "v2/" + V1Route + tail;
    MatchInside("v2/", V1Route, tail);
    MismatchAt(path, V1Route, 0, 1);
    MismatchAt(path, V1Route, 1, 0);
    MismatchAt(path, V1Route, 2, 0);
    forall j: nat | j < 3 ensures !MatchAt(path, V1Route, j) {
      assert j == 0 || j == 1 || j == 2;
    }
    ReplaceAllAtFirstMatch(path, V1Route, "", 3);
    Letters();
    AbsentChar(tail, V1Route, 0);
    ReplaceAllUnchanged(tail, V1Route, "");
    EmptyMiddle("v2/", tail);
    AppendAssoc("v2/", "publish/", rest);
    V2RouteSplit();
  }

  /** With the route segments interleaved, the `v2/publish/` pass alone removes nothing. */
  lemma V2PassFindsNothing(rest: string)
    requires 'v' !in rest
    ensures ReplaceAll("v2/" + V1Route + ("publish/" + rest), V2Route, "") == "v2/" + V1Route + ("publish/" + rest)
  {
    var tail := "publish/" + rest;
    var path := "v2/" + V1Route + tail;
    MismatchAt(path, V2Route, 0, 3);
    MismatchAt(path, V2Route, 1, 0);
    MismatchAt(path, V2Route, 2, 0);
    MismatchAt(path, V2Route, 3, 1);
    Letters();
    DropConcat("v2/", V1Route, 1);
    DropFromFirst("v2/" + V1Route, tail, 4);
    assert 'v' !in tail;
    NoMatchFrom(path, V2Route, 4, 0);
    forall j: nat | j <= |path| ensures !MatchAt(path, V2Route, j) {
      assert j < 4 ==> j == 0 || j == 1 || j == 2 || j == 3;
    }
    ReplaceAllUnchanged(path, V2Route, "");
  }

  /**
   * The `v1/publish/` pass runs first: removing it can join the two halves of
   * a `v2/publish/` segment, which the second pass then removes; the opposite
   * order would leave that segment in place.
   */
  lemma V1PassRunsFirst(rest: string)
    requires 'v' !in rest
    ensures StripRoute("v2/" + V1Route + ("publish/" + rest)) == rest
    ensures ReplaceAll(ReplaceAll("v2/" + V1Route + ("publish/" + rest), V2Route, ""), V1Route, "")
            == V2Route + rest
  {
    V1PassJoinsV2Segment(rest);
    V2PassFindsNothing(rest);
    MatchFront(V2Route, rest);
    ReplaceAllAtFront(V2Route + rest, V2Route, "");
    Letters();
    AbsentChar(rest, V2Route, 0);
    ReplaceAllUnchanged(rest, V2Route, "");
  }

  /** Stripping the inner route segment of `loc` + `v1/publish/` + `alhost` assembles `localhost`. */
  lemma StripAssemblesLocalHost(rest: string)
    requires 'v' !in rest
    ensures StripRoute("loc" + V1Route + ("alhost" + rest)) == LocalHost + rest
  {
    var tail := "alhost" + rest;
    var path := "loc" + V1Route + tail;
    Letters();
    MatchInside("loc", V1Route, tail);
    NoMatchBefore(path, V1Route, 3);
    ReplaceAllAtFirstMatch(path, V1Route, "", 3);
    AbsentChar(tail, V1Route, 0);
    ReplaceAllUnchanged(tail, V1Route, "");
    var joined := "loc" + tail;
    EmptyMiddle("loc", tail);
    AbsentChar(joined, V2Route, 0);
    ReplaceAllUnchanged(joined, V2Route, "");
    AppendAssoc("loc", "alhost", rest);
    LocalHostSplit();
  }

  /** Before stripping, that path contains no `localhost`. */
  lemma NoLocalHostBeforeStrip(rest: string)
    requires 'c' !in rest
    ensures !Occurs("loc" + V1Route + ("alhost" + rest), LocalHost)
  {
    var tail := "alhost" + rest;
    var path := "loc" + V1Route + tail;
    Letters();
    MismatchAt(path, LocalHost, 0, 3);
    AppendAssoc("loc", V1Route, tail);
    DropPrefix("loc", V1Route + tail);
    NoMatchFrom(path, LocalHost, 1, 2);
    forall j: nat | j <= |path| ensures !MatchAt(path, LocalHost, j) {
    }
  }

  /**
   * The host rewrite runs after stripping: a `localhost` that stripping
   * assembles is rewritten, which rewriting before stripping would miss.
   */
  lemma HostRewriteAfterStrip(rest: string)
    requires 'v' !in rest && 'c' !in rest
    ensures NormalizeTarget("loc" + V1Route + ("alhost" + rest), true) == DockerHost + rest
    ensures StripRoute(ReplaceAll("loc" + V1Route + ("alhost" + rest), LocalHost, DockerHost)) == LocalHost + rest
  {
    var path := "loc" + V1Route + ("alhost" + rest);
    StripAssemblesLocalHost(rest);
    Letters();
    MatchFront(LocalHost, rest);
    ReplaceAllAtFront(LocalHost + rest, LocalHost, DockerHost);
    AbsentChar(rest, LocalHost, 2);
    ReplaceAllUnchanged(rest, LocalHost, DockerHost);
    NoLocalHostBeforeStrip(rest);
    ReplaceAllUnchanged(path, LocalHost, DockerHost);
  }

  lemma V2RouteNotInV1Route()
    ensures !Occurs(V1Route, V2Route)
  {
    Letters();
    MismatchAt(V1Route, V2Route, 0, 1);
    NoMatchFrom(V1Route, V2Route, 1, 0);
    forall j: nat | j <= |V1Route| ensures !MatchAt(V1Route, V2Route, j) {
    }
  }

  /**
   * The route passes are single left-to-right scans: text that a removal
   * joins together is not scanned again, so a route segment can survive.
   */
  lemma StripIsSinglePass()
    ensures StripRoute("v1/p" + V1Route + "ublish/") == V1Route
  {
    var path := "v1/p" + V1Route + "ublish/";
    MatchInside("v1/p", V1Route, "ublish/");
    MismatchAt(path, V1Route, 0, 4);
    MismatchAt(path, V1Route, 1, 0);
    MismatchAt(path, V1Route, 2, 0);
    MismatchAt(path, V1Route, 3, 0);
    forall j: nat | j < 4 ensures !MatchAt(path, V1Route, j) {
      assert j == 0 || j == 1 || j == 2 || j == 3;
    }
    ReplaceAllAtFirstMatch(path, V1Route, "", 4);
    V1RouteSplit();
    EmptyMiddle("v1/p", "ublish/");
    V2RouteNotInV1Route();
    ReplaceAllUnchanged(V1Route, V2Route, "");
  }

  /**
   * The host rewrite is a single scan too: a rewrite can complete a new
   * `localhost`, which then reaches the queue.
   */
  lemma HostRewriteIsSinglePass(rest: string)
    requires 'v' !in rest && 'c' !in rest
    ensures NormalizeTarget("local" + LocalHost + rest, true) == "local" + DockerHost + rest
    ensures Occurs(NormalizeTarget("local" + LocalHost + rest, true), LocalHost)
  {
    var path := "local" + LocalHost + rest;
    Letters();
    AbsentChar(path, V1Route, 0);
    AbsentChar(path, V2Route, 0);
    ReplaceAllUnchanged(path, V1Route, "");
    ReplaceAllUnchanged(path, V2Route, "");
    MatchInside("local", LocalHost, rest);
    MismatchAt(path, LocalHost, 0, 5);
    MismatchAt(path, LocalHost, 1, 0);
    MismatchAt(path, LocalHost, 2, 0);
    MismatchAt(path, LocalHost, 3, 0);
    MismatchAt(path, LocalHost, 4, 1);
    forall j: nat | j < 5 ensures !MatchAt(path, LocalHost, j) {
      assert j == 0 || j == 1 || j == 2 || j == 3 || j == 4;
    }
    ReplaceAllAtFirstMatch(path, LocalHost, DockerHost, 5);
    AbsentChar(rest, LocalHost, 2);
    ReplaceAllUnchanged(rest, LocalHost, DockerHost);
    var result := "local" + DockerHost + rest;
    assert NormalizeTarget(path, true) == result;
    DockerHostStart();
    AppendAssoc(LocalHost, ".docker.internal", rest);
    MatchFront(LocalHost, ".docker.internal" + rest);
  }
}
