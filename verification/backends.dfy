/**
 The version-extraction helpers of the backends package.

 Backends that scrape a page for versions can use these helpers: fetch the
 page (`call_url`), apply a regular expression to the text (`re.findall`),
 turn every distinct raw match into one version string, reject the whole
 page if any of those strings contains a space, and fail when nothing
 matched. The regular-expression engine, the network fetch, the
 per-backend `get_versions` and the external `order_versions` are taken as
 function values: the model states what the pipeline does with whatever they
 return.
 */
module Backends {
  import opened Seqs

  datatype Option<+T> = None | Some(value: T)

  /** Success with a value, or the `AnityaPluginException` raised instead. */
  datatype Result<+T, +E> = Ok(value: T) | Err(error: E)

  /** The only part of a project the pipeline looks at. */
  datatype Project = Project(name: string)

  /**
   One item of `re.findall`: a plain string (a pattern with zero or one
   group) or the tuple of all groups (a pattern with two or more groups).
   */
  datatype Match = Str(s: string) | Groups(groups: seq<string>)

  /** What `re.findall` gives back: a pattern error, or the matches. */
  datatype FindAll = BadPattern | Found(matches: seq<Match>)

  /** What `call_url` gives back: an exception, an FTP body, or an HTTP response. */
  datatype Fetched = FetchError | RawText(body: string) | Response(text: string)

  /** The four reasons an `AnityaPluginException` is raised, with the context its message carries. */
  datatype PluginError =
    | InvalidPattern(name: string)
    | InvalidVersion(name: string, version: string, url: string, regex: string)
    | NoVersionFound(name: string, url: string, regex: string)
    | CallFailed(url: string, name: string)

  /**
   A backend and its own `get_versions`. `name` and `examples` mirror the
   class attributes of `BaseBackend` and are kept as data only: no operation
   here reads them.
   */
  datatype Backend = Backend(
    name: string,
    examples: seq<string>,
    getVersions: Project -> Result<seq<string>, PluginError>)

  /** The separator that joins the groups of a tuple match. */
  const GroupSep: char := '.'

  /**
   The only character whose presence makes a candidate invalid: the space
   itself, so a tab or a newline does not count.
   */
  predicate HasSpace(v: string)
  {
    ' ' in v
  }

  /**
   The groups of a tuple that are not the empty string, in their order and
   with their repeats: the list comprehension that filters out `""`.
   */
  function NonEmptyGroups(groups: seq<string>): (r: seq<string>)
    ensures forall g :: g in r <==> g in groups && g != ""
    ensures |r| <= |groups|
  {
    if |groups| == 0 then []
    else
      assert forall g :: g in groups <==> g == groups[0] || g in groups[1..];
      (if groups[0] == "" then [] else [groups[0]]) + NonEmptyGroups(groups[1..])
  }

  /** The kept groups are the tuple's groups with every empty one removed, repeats included. */
  lemma {:induction false} NonEmptyGroupsMultiset(groups: seq<string>)
    ensures multiset(NonEmptyGroups(groups)) == multiset(groups)["" := 0]
    decreases |groups|
  {
    if |groups| > 0 {
      NonEmptyGroupsMultiset(groups[1..]);
      assert groups == [groups[0]] + groups[1..];
    }
  }

  /**
   Filtering distributes over concatenation, and a single group is kept
   exactly when it is non-empty: together these fix the order of the kept
   groups to their order in the tuple.
   */
  lemma {:induction false} NonEmptyGroupsConcat(a: seq<string>, b: seq<string>)
    ensures NonEmptyGroups(a + b) == NonEmptyGroups(a) + NonEmptyGroups(b)
    ensures |a| == 1 ==> NonEmptyGroups(a) == (if a[0] == "" then [] else a)
    decreases |a|
  {
    if |a| == 0 {
      assert a + b == b;
    } else {
      var head := if a[0] == "" then [] else [a[0]];
      NonEmptyGroupsConcat(a[1..], b);
      assert (a + b)[0] == a[0];
      assert (a + b)[1..] == a[1..] + b;
      assert NonEmptyGroups(a + b) == head + NonEmptyGroups(a[1..] + b);
      assert NonEmptyGroups(a) == head + NonEmptyGroups(a[1..]);
      assert head + (NonEmptyGroups(a[1..]) + NonEmptyGroups(b))
          == (head + NonEmptyGroups(a[1..])) + NonEmptyGroups(b);
      if |a| == 1 {
        assert a[1..] == [];
      }
    }
  }

  /**
   A raw match as a version string: a string match as it is, a tuple as its
   non-empty groups joined by `.`. The joined string holds exactly the
   characters of the groups, plus the separator when two or more groups are
   kept.
   */
  function Normalize(m: Match): (r: string)
    ensures m.Str? ==> r == m.s
    ensures m.Groups? ==>
              forall c :: c in r <==>
                (exists g :: g in m.groups && c in g) ||
                (c == GroupSep && |NonEmptyGroups(m.groups)| >= 2)
  {
    match m
    case Str(s) => s
    case Groups(groups) =>
      var parts := NonEmptyGroups(groups);
      var joined := Join(parts, GroupSep);
      assert forall c :: c in joined <==>
               (exists g :: g in groups && c in g) || (c == GroupSep && |parts| >= 2) by {
        forall c ensures c in joined <==>
                 (exists g :: g in groups && c in g) || (c == GroupSep && |parts| >= 2) {
          JoinChars(parts, GroupSep, c);
          if exists g :: g in groups && c in g {
            var g :| g in groups && c in g;
            assert g in parts;
          }
        }
      }
      joined
  }

  /** The normalization of every entry of `ms`, position by position. */
  function Normalized(ms: seq<Match>): seq<string>
  {
    seq(|ms|, i requires 0 <= i < |ms| => Normalize(ms[i]))
  }

  /** The distinct raw matches in `ms` that normalize to `v`. */
  function Preimages(ms: seq<Match>, v: string): set<Match>
  {
    set m | m in ms && Normalize(m) == v
  }

  /** The index of the first entry of `vs` that contains a space, if any. */
  function FirstSpaced(vs: seq<string>): (r: Option<nat>)
    ensures r.None? <==> forall i :: 0 <= i < |vs| ==> !HasSpace(vs[i])
    ensures r.Some? ==> r.value < |vs| && HasSpace(vs[r.value])
    ensures r.Some? ==> forall i :: 0 <= i < r.value ==> !HasSpace(vs[i])
  {
    if |vs| == 0 then None
    else if HasSpace(vs[0]) then Some(0)
    else match FirstSpaced(vs[1..])
      case None => None
      case Some(k) => Some(k + 1)
  }

  /**
   Each string occurs in the normalization of a duplicate-free sequence as
   often as there are entries that normalize to it.
   */
  lemma {:induction false} NormalizedCount(d: seq<Match>, v: string)
    requires Distinct(d)
    ensures multiset(Normalized(d))[v] == |Preimages(d, v)|
    decreases |d|
  {
    if |d| > 0 {
      var prefix := d[..|d| - 1];
      var last := d[|d| - 1];
      assert d == prefix + [last];
      assert Distinct(prefix);
      NormalizedCount(prefix, v);
      assert Normalized(d) == Normalized(prefix) + [Normalize(last)];
      assert last !in prefix by {
        forall i | 0 <= i < |prefix| ensures prefix[i] != last {
          assert prefix[i] == d[i];
        }
      }
      if Normalize(last) == v {
        assert Preimages(d, v) == Preimages(prefix, v) + {last};
      } else {
        assert Preimages(d, v) == Preimages(prefix, v);
      }
    }
  }

  /**
   `get_versions_by_regex_for_text` once `re.findall` has run: dedupe the raw
   matches, normalize each one, reject the first candidate holding a space,
   and fail when there is no candidate.
   */
  function ExtractVersions(found: FindAll, url: string, regex: string, project: Project)
    : (r: Result<seq<string>, PluginError>)
    // A malformed pattern is reported before any candidate is looked at.
    ensures found.BadPattern? <==> r == Err(InvalidPattern(project.name))
    // No raw match at all.
    ensures found.Found? && |found.matches| == 0 ==>
              r == Err(NoVersionFound(project.name, url, regex))
    // Success exactly when something matched and no candidate holds a space.
    ensures r.Ok? <==>
              && found.Found?
              && |found.matches| > 0
              && forall m :: m in found.matches ==> !HasSpace(Normalize(m))
    // One spaced candidate spoils the whole page.
    ensures found.Found? && (exists m :: m in found.matches && HasSpace(Normalize(m))) ==>
              r.Err? && r.error.InvalidVersion?
    // The reported candidate is a spaced normalization of some raw match.
    ensures r.Err? && r.error.InvalidVersion? ==>
              && found.Found?
              && r.error == InvalidVersion(project.name, r.error.version, url, regex)
              && HasSpace(r.error.version)
              && exists m :: m in found.matches && Normalize(m) == r.error.version
    // Fetch failures are never produced here.
    ensures r.Err? ==> !r.error.CallFailed?
    // On success: sound and complete, one entry per distinct raw match.
    ensures r.Ok? ==>
              forall v :: v in r.value <==> exists m :: m in found.matches && Normalize(m) == v
    ensures r.Ok? ==> |r.value| == |Elems(found.matches)|
    ensures r.Ok? ==>
              forall v :: multiset(r.value)[v] == |Preimages(found.matches, v)|
  {
    match found
    case BadPattern => Err(InvalidPattern(project.name))
    case Found(ms) =>
      var upstream := Dedup(ms);
      var versions := Normalized(upstream);
      DedupCard(ms);
      assert forall m :: m in upstream <==> m in ms by {
        forall m ensures m in upstream <==> m in ms {
          assert m in upstream <==> m in Elems(upstream);
          assert m in ms <==> m in Elems(ms);
        }
      }
      assert forall v :: Preimages(upstream, v) == Preimages(ms, v);
      assert forall v :: multiset(versions)[v] == |Preimages(ms, v)| by {
        forall v ensures multiset(versions)[v] == |Preimages(ms, v)| {
          NormalizedCount(upstream, v);
        }
      }
      assert forall v :: v in versions <==> exists m :: m in ms && Normalize(m) == v by {
        forall v ensures v in versions <==> exists m :: m in ms && Normalize(m) == v {
          if v in versions {
            var i :| 0 <= i < |versions| && versions[i] == v;
            assert upstream[i] in ms;
          }
          if exists m :: m in ms && Normalize(m) == v {
            var m :| m in ms && Normalize(m) == v;
            var i :| 0 <= i < |upstream| && upstream[i] == m;
            assert versions[i] == v;
          }
        }
      }
      assert |ms| > 0 ==> ms[0] in upstream;
      assert (forall i :: 0 <= i < |versions| ==> !HasSpace(versions[i])) <==>
             (forall m :: m in ms ==> !HasSpace(Normalize(m))) by {
        if forall i :: 0 <= i < |versions| ==> !HasSpace(versions[i]) {
          forall m | m in ms ensures !HasSpace(Normalize(m)) {
            var i :| 0 <= i < |upstream| && upstream[i] == m;
            assert versions[i] == Normalize(m);
          }
        }
      }
      match FirstSpaced(versions)
      case Some(i) =>
        assert upstream[i] in ms;
        Err(InvalidVersion(project.name, versions[i], url, regex))
      case None =>
        if |versions| == 0 then Err(NoVersionFound(project.name, url, regex))
        else Ok(versions)
  }

  /**
   The normalization loop as written: the deduplicated list is rewritten in place,
   a tuple entry being replaced by its joined string, and the first entry
   holding a space aborts the call.
   */
  method ExtractVersionsInPlace(found: FindAll, url: string, regex: string, project: Project)
    returns (r: Result<seq<string>, PluginError>)
    ensures r == ExtractVersions(found, url, regex, project)
  {
    if found.BadPattern? {
      return Err(InvalidPattern(project.name));
    }
    var upstream := Dedup(found.matches);
    ghost var raw := upstream;
    var index := 0;
    while index < |upstream|
      invariant 0 <= index <= |upstream| == |raw|
      invariant forall j :: 0 <= j < index ==> upstream[j] == Str(Normalize(raw[j]))
      invariant forall j :: 0 <= j < index ==> !HasSpace(Normalize(raw[j]))
      invariant forall j :: index <= j < |upstream| ==> upstream[j] == raw[j]
      decreases |raw| - index
    {
      var version: string;
      if upstream[index].Groups? {
        version := Join(NonEmptyGroups(upstream[index].groups), GroupSep);
        upstream := upstream[index := Str(version)];
      } else {
        version := upstream[index].s;
      }
      if ' ' in version {
        ghost var vs := Normalized(raw);
        assert vs[index] == version;
        assert FirstSpaced(vs) == Some(index);
        return Err(InvalidVersion(project.name, version, url, regex));
      }
      index := index + 1;
    }
    assert FirstSpaced(Normalized(raw)).None?;
    if |upstream| == 0 {
      return Err(NoVersionFound(project.name, url, regex));
    }
    r := Ok(seq(|upstream|, i requires 0 <= i < |upstream| => upstream[i].s));
    assert r.value == Normalized(raw);
  }

  /** `get_versions_by_regex_for_text`: run the pattern over the text, then extract. */
  function VersionsByRegexForText(
    findAll: (string, string) -> FindAll,
    text: string, url: string, regex: string, project: Project)
    : (r: Result<seq<string>, PluginError>)
    ensures findAll(regex, text).BadPattern? <==> r == Err(InvalidPattern(project.name))
    ensures r.Ok? <==>
              && findAll(regex, text).Found?
              && |findAll(regex, text).matches| > 0
              && forall m :: m in findAll(regex, text).matches ==> !HasSpace(Normalize(m))
    ensures r.Ok? ==>
              forall v :: multiset(r.value)[v] == |Preimages(findAll(regex, text).matches, v)|
    ensures r.Err? ==> !r.error.CallFailed?
  {
    ExtractVersions(findAll(regex, text), url, regex, project)
  }

  /**
   The text of a successful fetch: a string result (the FTP body) is used
   as it is, a response object is replaced by its decoded `.text`.
   */
  function TextOf(fetched: Fetched): string
    requires !fetched.FetchError?
  {
    match fetched
    case RawText(body) => body
    case Response(text) => text
  }

  /**
   `get_versions_by_regex`: fetch the url, turn any fetch exception into the
   call-failed plugin error, and extract from the fetched text.
   */
  function VersionsByRegex(
    callUrl: string -> Fetched,
    findAll: (string, string) -> FindAll,
    url: string, regex: string, project: Project)
    : (r: Result<seq<string>, PluginError>)
    // Exactly the failed fetches end in the call-failed error, naming the url and project.
    ensures callUrl(url).FetchError? <==> r == Err(CallFailed(url, project.name))
    ensures r.Err? && r.error.CallFailed? ==> callUrl(url).FetchError?
    // Otherwise the outcome is that of extraction over the fetched text.
    ensures !callUrl(url).FetchError? ==>
              r == VersionsByRegexForText(findAll, TextOf(callUrl(url)), url, regex, project)
  {
    var fetched := callUrl(url);
    if fetched.FetchError? then Err(CallFailed(url, project.name))
    else VersionsByRegexForText(findAll, TextOf(fetched), url, regex, project)
  }

  /** `order_versions` returns a rearrangement of its input. */
  ghost predicate Permutes(orderVersions: seq<string> -> seq<string>)
  {
    forall vs :: multiset(orderVersions(vs)) == multiset(vs)
  }

  /** `BaseBackend.get_ordered_versions`: the backend's versions, put in order. */
  function GetOrderedVersions(
    backend: Backend, orderVersions: seq<string> -> seq<string>, project: Project)
    : (r: Result<seq<string>, PluginError>)
    // A failure of get_versions propagates unchanged.
    ensures backend.getVersions(project).Err? ==> r == backend.getVersions(project)
    ensures r.Ok? <==> backend.getVersions(project).Ok?
  {
    match backend.getVersions(project)
    case Err(e) => Err(e)
    case Ok(versions) => Ok(orderVersions(versions))
  }
}
