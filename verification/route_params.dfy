/**
 * src/routes/utils.ts: splitting a route's arguments into those named by a
 * `:name` placeholder of the path template and the rest, which go to the
 * query string.
 *
 * The template is scanned as `template.matchAll(/(?::([^/]+)|\*)/g)` scans it:
 * a `:` followed by a non-empty run of non-`/` characters is a match whose
 * capture is that whole run (so a later `:` inside the run is part of it),
 * and a `*` is a match with no capture (`undefined`, modelled as `None`).
 */
module RouteParams {
  import opened Wrappers
  import opened Values
  import opened OrderedMaps
  import Seqs

  /** The longest prefix of `s` containing no `/`: what `[^/]+` consumes. */
  function Run(s: string): (r: string)
    ensures r <= s
    ensures forall i :: 0 <= i < |r| ==> r[i] != '/'
    ensures |r| < |s| ==> s[|r|] == '/'
  {
    if s == [] || s[0] == '/' then ""
    else [s[0]] + Run(s[1..])
  }

  /** `Array.from(template.matchAll(PARSE_TEMPLATE_RE), m => m[1])`, scanning left to right. */
  function RouteArgs(template: string): seq<Option<string>>
    decreases |template|
  {
    if template == [] then []
    else if template[0] == ':' && |template| > 1 && template[1] != '/' then
      var run := Run(template[1..]);
      [Some(run)] + RouteArgs(template[1 + |run|..])
    else if template[0] == '*' then [None] + RouteArgs(template[1..])
    else RouteArgs(template[1..])
  }

  /** The captured strings, in order: `routeArgs` without the `undefined`s of `*` matches. */
  function Somes(xs: seq<Option<string>>): seq<string> {
    if xs == [] then []
    else (if xs[0].Some? then [xs[0].value] else []) + Somes(xs[1..])
  }

  // ---------------------------------------------------------------------------
  // An independent description of the captures, one path segment at a time.

  /** The `/`-separated segments of a template. */
  function Segments(s: string): (r: seq<string>)
    ensures |r| > 0
    ensures forall i :: 0 <= i < |r| ==> '/' !in r[i]
    decreases |s|
  {
    var seg := Run(s);
    if |seg| < |s| then [seg] + Segments(s[|seg| + 1..]) else [seg]
  }

  /**
   * The capture a segment contributes: everything after its first `:`, when
   * that is not empty.
   */
  function SegmentCapture(seg: string): (r: seq<string>)
    ensures |r| <= 1
    ensures |r| == 1 ==> 0 < |r[0]| < |seg| && r[0] == seg[|seg| - |r[0]|..] && seg[|seg| - |r[0]| - 1] == ':'
  {
    var p := Seqs.FirstIndex(seg, ':');
    if p + 1 < |seg| then [seg[p + 1..]] else []
  }

  function SegmentCaptures(segs: seq<string>): seq<string> {
    if segs == [] then [] else SegmentCapture(segs[0]) + SegmentCaptures(segs[1..])
  }

  /** The `:name` placeholders of a template: the captures of its segments. */
  function Placeholders(template: string): seq<string> {
    SegmentCaptures(Segments(template))
  }

  lemma SomesAppend(a: seq<Option<string>>, b: seq<Option<string>>)
    ensures Somes(a + b) == Somes(a) + Somes(b)
  {
    if a != [] {
      assert (a + b)[1..] == a[1..] + b;
      assert (a + b)[0] == a[0];
      SomesAppend(a[1..], b);
    } else {
      assert a + b == b;
    }
  }

  lemma RunCons(s: string)
    requires s != [] && s[0] != '/'
    ensures Run(s) == [s[0]] + Run(s[1..])
  {
  }

  /** A leading character other than `:` and `/` does not change a segment's capture. */
  lemma SegmentCaptureCons(c: char, seg: string)
    requires c != ':'
    ensures SegmentCapture([c] + seg) == SegmentCapture(seg)
  {
    var s := [c] + seg;
    assert s[1..] == seg;
    assert Seqs.FirstIndex(s, ':') == Seqs.FirstIndex(seg, ':') + 1;
    var p := Seqs.FirstIndex(seg, ':');
    if p + 1 < |seg| {
      assert s[p + 2..] == seg[p + 1..];
    }
  }

  /**
   * Scanning a template yields the capture of its first segment, then the
   * captures of what follows the first `/`.
   */
  predicate ScansFirstSegment(s: string) {
    Somes(RouteArgs(s))
      == SegmentCapture(Run(s)) + (if |Run(s)| < |s| then Somes(RouteArgs(s[|Run(s)| + 1..])) else [])
  }

  lemma {:induction false} ScanFirstSegment(s: string)
    ensures ScansFirstSegment(s)
    decreases |s|
  {
    if s == [] {
    } else if s[0] == '/' {
      assert Run(s) == "";
      assert SegmentCapture("") == [];
    } else if s[0] == ':' && |s| > 1 && s[1] != '/' {
      ScanCapture(s);
    } else if s[0] == ':' {
      ScanFirstSegment(s[1..]);
      ScanLoneColon(s);
    } else {
      ScanFirstSegment(s[1..]);
      ScanOther(s);
    }
  }

  /** A `:` starting a non-empty run: the run is the segment's capture. */
  lemma ScanCapture(s: string)
    requires |s| > 1 && s[0] == ':' && s[1] != '/'
    ensures ScansFirstSegment(s)
  {
    var run := Run(s[1..]);
    RunCons(s);
    assert Run(s) == ":" + run;
    assert Seqs.FirstIndex(Run(s), ':') == 0;
    assert Run(s)[1..] == run;
    assert SegmentCapture(Run(s)) == [run];
    assert RouteArgs(s) == [Some(run)] + RouteArgs(s[1 + |run|..]);
    SomesAppend([Some(run)], RouteArgs(s[1 + |run|..]));
    assert Somes([Some(run)]) == [run];
    var tail := s[1 + |run|..];
    if |Run(s)| < |s| {
      assert tail[0] == '/';
      assert RouteArgs(tail) == RouteArgs(tail[1..]);
      assert tail[1..] == s[|Run(s)| + 1..];
    } else {
      assert tail == [];
    }
  }

  /** A `:` directly before a `/` or the end matches nothing and captures nothing. */
  lemma ScanLoneColon(s: string)
    requires |s| > 0 && s[0] == ':' && (|s| == 1 || s[1] == '/')
    requires ScansFirstSegment(s[1..])
    ensures ScansFirstSegment(s)
  {
    RunCons(s);
    assert Run(s) == ":";
    assert Seqs.FirstIndex(":", ':') == 0;
    assert SegmentCapture(":") == [];
    var rest := s[1..];
    assert RouteArgs(s) == RouteArgs(rest);
    if |s| > 1 {
      assert rest[0] == '/';
      assert Run(rest) == "";
      assert SegmentCapture("") == [];
      assert rest[1..] == s[2..];
    } else {
      assert rest == [];
    }
  }

  /** Any other character is part of the segment and leaves its capture as it is. */
  lemma ScanOther(s: string)
    requires |s| > 0 && s[0] != ':' && s[0] != '/'
    requires ScansFirstSegment(s[1..])
    ensures ScansFirstSegment(s)
  {
    var rest := s[1..];
    RunCons(s);
    SegmentCaptureCons(s[0], Run(rest));
    if s[0] == '*' {
      assert RouteArgs(s) == [None] + RouteArgs(rest);
      SomesAppend([None], RouteArgs(rest));
      assert Somes([None]) == [];
    } else {
      assert RouteArgs(s) == RouteArgs(rest);
    }
    if |Run(s)| < |s| {
      assert rest[|Run(rest)| + 1..] == s[|Run(s)| + 1..];
    }
  }

  /** The scanner finds exactly the placeholders of the segment-by-segment description. */
  lemma {:induction false} RouteArgsArePlaceholders(template: string)
    ensures Somes(RouteArgs(template)) == Placeholders(template)
    decreases |template|
  {
    ScanFirstSegment(template);
    var seg := Run(template);
    if |seg| < |template| {
      RouteArgsArePlaceholders(template[|seg| + 1..]);
      assert Segments(template) == [seg] + Segments(template[|seg| + 1..]);
      assert Segments(template)[1..] == Segments(template[|seg| + 1..]);
    } else {
      assert Segments(template) == [seg];
      assert SegmentCaptures([seg]) == SegmentCapture(seg) + SegmentCaptures([]);
    }
  }

  /** `routeArgs.includes(key)`: a `*` match (`undefined`) never equals a key. */
  predicate IsRouteArg(template: string, key: string) {
    Some(key) in RouteArgs(template)
  }

  lemma SomesMembership(xs: seq<Option<string>>, k: string)
    ensures Some(k) in xs <==> k in Somes(xs)
  {
    if xs != [] {
      SomesMembership(xs[1..], k);
      assert xs == [xs[0]] + xs[1..];
    }
  }

  /** A key goes to the path exactly when it is one of the template's `:name` placeholders. */
  lemma IsRouteArgIffPlaceholder(template: string, key: string)
    ensures IsRouteArg(template, key) <==> key in Placeholders(template)
  {
    SomesMembership(RouteArgs(template), key);
    RouteArgsArePlaceholders(template);
  }

  lemma SegmentCapturesNoColon(segs: seq<string>)
    requires forall i :: 0 <= i < |segs| ==> ':' !in segs[i]
    ensures SegmentCaptures(segs) == []
  {
    if segs != [] {
      assert Seqs.FirstIndex(segs[0], ':') == |segs[0]|;
      SegmentCapturesNoColon(segs[1..]);
    }
  }

  lemma SegmentsOfNoColon(s: string)
    requires ':' !in s
    ensures forall i :: 0 <= i < |Segments(s)| ==> ':' !in Segments(s)[i]
    decreases |s|
  {
    var seg := Run(s);
    assert forall c :: c in seg ==> c in s;
    if |seg| < |s| {
      var rest := s[|seg| + 1..];
      assert forall c :: c in rest ==> c in s;
      SegmentsOfNoColon(rest);
    }
  }

  /** A template with no `:` has no placeholders, so no key is a route argument. */
  lemma NoColonNoRouteArgs(template: string, key: string)
    requires ':' !in template
    ensures !IsRouteArg(template, key)
  {
    SegmentsOfNoColon(template);
    SegmentCapturesNoColon(Segments(template));
    IsRouteArgIffPlaceholder(template, key);
  }

  // ---------------------------------------------------------------------------
  // groupParams

  datatype Grouped = Grouped(path: OMap<string, Value>, query: OMap<string, Value>)

  /**
   * `Object.keys(obj).reduce(...)`: each entry of `obj`, in key order, is set
   * into `path` when its key is a route argument and into `query` otherwise.
   * The fold is written from the last entry, which it handles after all the
   * others.
   */
  function GroupParams(obj: OMap<string, Value>, template: string): (r: Grouped)
    ensures forall k :: Get(r.path, k).Some? ==> IsRouteArg(template, k) && k in Keys(obj)
    ensures forall k :: Get(r.query, k).Some? ==> !IsRouteArg(template, k) && k in Keys(obj)
  {
    if obj == [] then Grouped([], [])
    else
      var acc := GroupParams(obj[..|obj| - 1], template);
      var (k, v) := obj[|obj| - 1];
      assert Keys(obj) == Keys(obj[..|obj| - 1]) + [k];
      if IsRouteArg(template, k) then acc.(path := Set(acc.path, k, v))
      else acc.(query := Set(acc.query, k, v))
  }

  function IsArgFn(template: string): string -> bool {
    k => IsRouteArg(template, k)
  }

  function NotArgFn(template: string): string -> bool {
    k => !IsRouteArg(template, k)
  }

  /**
   * Every key of the (duplicate-free) object lands in exactly one group with
   * its value unchanged: in `path` when it is a route argument, else in
   * `query`.
   */
  lemma {:induction false} GroupParamsPartitions(obj: OMap<string, Value>, template: string, k: string)
    requires Valid(obj)
    ensures IsRouteArg(template, k) ==> Get(GroupParams(obj, template).path, k) == Get(obj, k)
    ensures IsRouteArg(template, k) ==> Get(GroupParams(obj, template).query, k) == None
    ensures !IsRouteArg(template, k) ==> Get(GroupParams(obj, template).query, k) == Get(obj, k)
    ensures !IsRouteArg(template, k) ==> Get(GroupParams(obj, template).path, k) == None
    decreases |obj|
  {
    if obj != [] {
      var init := obj[..|obj| - 1];
      assert Keys(init) == Keys(obj)[..|obj| - 1];
      assert Valid(init);
      GroupParamsPartitions(init, template, k);
      ValidLastFor(obj, k);
      ValidLastFor(init, k);
    }
  }

  /**
   * Both groups keep the object's key order: `path` holds the route arguments
   * and `query` the other keys, each in the order `Object.keys` lists them.
   */
  lemma {:induction false} GroupParamsKeyOrder(obj: OMap<string, Value>, template: string)
    requires Valid(obj)
    ensures Keys(GroupParams(obj, template).path) == Seqs.Select(Keys(obj), IsArgFn(template))
    ensures Keys(GroupParams(obj, template).query) == Seqs.Select(Keys(obj), NotArgFn(template))
    decreases |obj|
  {
    if obj != [] {
      var init := obj[..|obj| - 1];
      var k := obj[|obj| - 1].0;
      assert Keys(init) == Keys(obj)[..|obj| - 1];
      assert Valid(init);
      GroupParamsKeyOrder(init, template);
      var acc := GroupParams(init, template);
      assert k !in Keys(init) by {
        forall j | 0 <= j < |init| ensures Keys(init)[j] != k {
          assert Keys(obj)[j] != Keys(obj)[|obj| - 1];
        }
      }
      GetSomeIffKey(acc.path, k);
      GetSomeIffKey(acc.query, k);
    }
  }

  /** A template without `:` sends every key to the query, in order, with its value. */
  lemma NoPlaceholdersAllQuery(obj: OMap<string, Value>, template: string)
    requires Valid(obj)
    requires ':' !in template
    ensures GroupParams(obj, template).path == []
    ensures Keys(GroupParams(obj, template).query) == Keys(obj)
    ensures forall k :: Get(GroupParams(obj, template).query, k) == Get(obj, k)
  {
    forall k ensures Get(GroupParams(obj, template).query, k) == Get(obj, k) {
      NoColonNoRouteArgs(template, k);
      GroupParamsPartitions(obj, template, k);
    }
    GroupParamsKeyOrder(obj, template);
    forall k | k in Keys(obj) ensures !IsRouteArg(template, k) {
      NoColonNoRouteArgs(template, k);
    }
    Seqs.SelectAll(Keys(obj), NotArgFn(template));
    Seqs.SelectNone(Keys(obj), IsArgFn(template));
    var p := GroupParams(obj, template).path;
    assert Keys(p) == [];
    assert |p| == |Keys(p)|;
  }
}
