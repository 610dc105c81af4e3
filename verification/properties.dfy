/**
 Properties of the extraction pipeline that relate several calls, and
 concrete scenarios.
 */
module BackendProperties {
  import opened Seqs
  import opened Backends

  /**
   A normalized candidate holds a space exactly when the raw match did: the
   string itself, or one of the groups of a tuple (the joining `.` and the
   dropped empty groups add no space and hide none).
   */
  lemma NormalizeSpace(m: Match)
    ensures HasSpace(Normalize(m)) <==>
              match m
              case Str(s) => HasSpace(s)
              case Groups(groups) => exists g :: g in groups && HasSpace(g)
  {
    // Follows from the character contract of `Normalize`: the separator is not a space.
  }

  /**
   Splitting a normalized tuple at `.` gives back its non-empty groups, as
   long as some group is non-empty and no group holds a `.` itself.
   */
  lemma NormalizeSplit(groups: seq<string>)
    requires exists g :: g in groups && g != ""
    requires forall g :: g in groups ==> GroupSep !in g
    ensures Split(Normalize(Groups(groups)), GroupSep) == NonEmptyGroups(groups)
  {
    var parts := NonEmptyGroups(groups);
    var g :| g in groups && g != "";
    assert g in parts;
    assert forall i :: 0 <= i < |parts| ==> GroupSep !in parts[i] by {
      forall i | 0 <= i < |parts| ensures GroupSep !in parts[i] {
        assert parts[i] in parts;
      }
    }
    SplitJoin(parts, GroupSep);
  }

  /** Normalization of a few typical tuples and strings. */
  lemma NormalizeExamples()
    ensures Normalize(Groups(["1", "2", ""])) == "1.2"
    ensures Normalize(Groups(["1", "", "2"])) == "1.2"
    ensures Normalize(Groups(["", "", ""])) == ""
    ensures Normalize(Groups(["1", "0", "3"])) == "1.0.3"
    ensures Normalize(Str("1.0")) == "1.0"
  {
    assert Normalize(Groups(["1", "2", ""])) == "1.2" by {
      assert NonEmptyGroups(["1", "2", ""]) == ["1", "2"] by {
        assert ["1", "2", ""][1..] == ["2", ""];
        assert ["2", ""][1..] == [""];
        assert [""][1..] == [];
      }
      assert ["1", "2"][1..] == ["2"];
    }
    assert Normalize(Groups(["1", "", "2"])) == "1.2" by {
      assert NonEmptyGroups(["1", "", "2"]) == ["1", "2"] by {
        assert ["1", "", "2"][1..] == ["", "2"];
        assert ["", "2"][1..] == ["2"];
        assert ["2"][1..] == [];
      }
      assert ["1", "2"][1..] == ["2"];
    }
    assert Normalize(Groups(["", "", ""])) == "" by {
      assert NonEmptyGroups(["", "", ""]) == [] by {
        assert ["", "", ""][1..] == ["", ""];
        assert ["", ""][1..] == [""];
        assert [""][1..] == [];
      }
    }
    assert Normalize(Groups(["1", "0", "3"])) == "1.0.3" by {
      assert NonEmptyGroups(["1", "0", "3"]) == ["1", "0", "3"] by {
        assert ["1", "0", "3"][1..] == ["0", "3"];
        assert ["0", "3"][1..] == ["3"];
        assert ["3"][1..] == [];
      }
      assert ["1", "0", "3"][1..] == ["0", "3"];
      assert ["0", "3"][1..] == ["3"];
    }
  }

  /**
   The outcome depends only on the set of raw matches: repeating or
   reordering them changes neither success nor the error kind, and on
   success the returned versions are the same up to order. Only the spaced
   candidate named by an invalid-version error may differ, because the
   loop reports whichever one it meets first.
   */
  lemma {:induction false} SameMatchSetSameOutcome(
    ms1: seq<Match>, ms2: seq<Match>, url: string, regex: string, project: Project)
    requires Elems(ms1) == Elems(ms2)
    ensures ExtractVersions(Found(ms1), url, regex, project).Ok? <==>
            ExtractVersions(Found(ms2), url, regex, project).Ok?
    ensures ExtractVersions(Found(ms1), url, regex, project).Ok? ==>
              multiset(ExtractVersions(Found(ms1), url, regex, project).value) ==
              multiset(ExtractVersions(Found(ms2), url, regex, project).value)
    ensures ExtractVersions(Found(ms1), url, regex, project).Err? ==>
              var e1 := ExtractVersions(Found(ms1), url, regex, project).error;
              var e2 := ExtractVersions(Found(ms2), url, regex, project).error;
              (e1.InvalidVersion? <==> e2.InvalidVersion?) && (!e1.InvalidVersion? ==> e1 == e2)
  {
    var r1 := ExtractVersions(Found(ms1), url, regex, project);
    var r2 := ExtractVersions(Found(ms2), url, regex, project);
    assert forall m :: m in ms1 <==> m in ms2 by {
      forall m ensures m in ms1 <==> m in ms2 {
        assert m in ms1 <==> m in Elems(ms1);
        assert m in ms2 <==> m in Elems(ms2);
      }
    }
    assert |ms1| > 0 <==> |ms2| > 0 by {
      if |ms1| > 0 { assert ms1[0] in ms2; }
      if |ms2| > 0 { assert ms2[0] in ms1; }
    }
    if r1.Ok? {
      assert forall v :: Preimages(ms1, v) == Preimages(ms2, v);
      assert forall v :: multiset(r1.value)[v] == multiset(r2.value)[v];
    }
    if r1.Err? && !r1.error.InvalidVersion? {
      assert !exists m :: m in ms1 && HasSpace(Normalize(m));
    }
    if r2.Err? && !r2.error.InvalidVersion? {
      assert !exists m :: m in ms2 && HasSpace(Normalize(m));
    }
  }

  /**
   Raw matches are deduplicated before they are joined, so two different
   tuples with the same non-empty groups both survive as the same string.
   */
  lemma JoinedDuplicatesKept(url: string, regex: string, project: Project)
    ensures ExtractVersions(Found([Groups(["1", "2", ""]), Groups(["1", "", "2"])]), url, regex, project)
            == Ok(["1.2", "1.2"])
  {
    var ms := [Groups(["1", "2", ""]), Groups(["1", "", "2"])];
    assert Dedup(ms) == ms by {
      assert ms[..1] == [Groups(["1", "2", ""])];
      assert ms[..1][..0] == [];
    }
    assert Normalized(ms) == ["1.2", "1.2"] by {
      NormalizeExamples();
    }
    assert FirstSpaced(["1.2", "1.2"]) == None by {
      assert !HasSpace("1.2");
    }
  }

  /** Identical raw matches collapse to one version. */
  lemma IdenticalMatchesCollapse(url: string, regex: string, project: Project)
    ensures ExtractVersions(Found([Str("1.0"), Str("1.0")]), url, regex, project) == Ok(["1.0"])
  {
    var ms := [Str("1.0"), Str("1.0")];
    assert Dedup(ms) == [Str("1.0")] by {
      assert ms[..1] == [Str("1.0")];
      assert ms[..1][..0] == [];
    }
    assert Normalized([Str("1.0")]) == ["1.0"];
    assert FirstSpaced(["1.0"]) == None by {
      assert !HasSpace("1.0");
    }
  }

  /** Two tarball versions on one page give both versions. */
  lemma TwoTarballs(url: string, regex: string, project: Project)
    ensures ExtractVersions(Found([Str("1.0"), Str("2.0")]), url, regex, project).Ok?
    ensures multiset(ExtractVersions(Found([Str("1.0"), Str("2.0")]), url, regex, project).value)
            == multiset{"1.0", "2.0"}
  {
    var ms := [Str("1.0"), Str("2.0")];
    assert Dedup(ms) == ms by {
      assert ms[..1] == [Str("1.0")];
      assert ms[..1][..0] == [];
    }
    assert Normalized(ms) == ["1.0", "2.0"];
    assert FirstSpaced(["1.0", "2.0"]) == None by {
      assert !HasSpace("1.0") && !HasSpace("2.0");
    }
  }

  /** A pattern that matched across a space rejects the whole page, good candidates included. */
  lemma SpaceAbortsWholePage(url: string, regex: string, project: Project)
    ensures ExtractVersions(Found([Str("1.0"), Str("foo bar"), Str("2.0")]), url, regex, project)
            == Err(InvalidVersion(project.name, "foo bar", url, regex))
  {
    var ms := [Str("1.0"), Str("foo bar"), Str("2.0")];
    assert Dedup(ms) == ms by {
      assert ms[..2] == [Str("1.0"), Str("foo bar")];
      assert ms[..2][..1] == [Str("1.0")];
      assert ms[..2][..1][..0] == [];
    }
    assert Normalized(ms) == ["1.0", "foo bar", "2.0"];
    assert FirstSpaced(["1.0", "foo bar", "2.0"]) == Some(1) by {
      assert !HasSpace("1.0") && HasSpace("foo bar");
    }
  }

  /** A space inside one group is caught after joining. */
  lemma SpaceInsideGroupCaught(url: string, regex: string, project: Project)
    ensures ExtractVersions(Found([Groups(["1 ", "2"])]), url, regex, project)
            == Err(InvalidVersion(project.name, "1 .2", url, regex))
  {
    var ms := [Groups(["1 ", "2"])];
    assert Dedup(ms) == ms by {
      assert ms[..0] == [];
    }
    assert Normalize(Groups(["1 ", "2"])) == "1 .2" by {
      assert NonEmptyGroups(["1 ", "2"]) == ["1 ", "2"] by {
        assert ["1 ", "2"][1..] == ["2"];
        assert ["2"][1..] == [];
      }
      assert ["1 ", "2"][1..] == ["2"];
    }
    assert Normalized(ms) == ["1 .2"];
    assert FirstSpaced(["1 .2"]) == Some(0) by {
      assert HasSpace("1 .2");
    }
  }

  /** Only the space character is rejected: a tab inside a version is accepted. */
  lemma TabAccepted(url: string, regex: string, project: Project)
    ensures ExtractVersions(Found([Str("1.0\t2")]), url, regex, project) == Ok(["1.0\t2"])
  {
    var ms := [Str("1.0\t2")];
    assert Dedup(ms) == ms by {
      assert ms[..0] == [];
    }
    assert Normalized(ms) == ["1.0\t2"];
    assert FirstSpaced(["1.0\t2"]) == None by {
      assert !HasSpace("1.0\t2");
    }
  }

  /** A tuple of empty groups becomes the empty version, which is kept. */
  lemma EmptyTupleKept(url: string, regex: string, project: Project)
    ensures ExtractVersions(Found([Groups(["", ""])]), url, regex, project) == Ok([""])
  {
    var ms := [Groups(["", ""])];
    assert Dedup(ms) == ms by {
      assert ms[..0] == [];
    }
    assert Normalize(Groups(["", ""])) == "" by {
      assert NonEmptyGroups(["", ""]) == [] by {
        assert ["", ""][1..] == [""];
        assert [""][1..] == [];
      }
    }
    assert Normalized(ms) == [""];
    assert FirstSpaced([""]) == None;
  }

  /**
   Only the text of a fetch matters: an FTP body and an HTTP response whose
   `.text` is the same string give the same outcome.
   */
  lemma FetchedTextOnly(
    callUrl1: string -> Fetched, callUrl2: string -> Fetched,
    findAll: (string, string) -> FindAll, url: string, regex: string, project: Project)
    requires callUrl1(url).RawText? && callUrl2(url).Response?
    requires callUrl1(url).body == callUrl2(url).text
    ensures VersionsByRegex(callUrl1, findAll, url, regex, project) ==
            VersionsByRegex(callUrl2, findAll, url, regex, project)
    ensures VersionsByRegex(callUrl1, findAll, url, regex, project) ==
            VersionsByRegexForText(findAll, callUrl1(url).body, url, regex, project)
  {
  }

  /**
   Whatever `order_versions` guarantees of every list it returns (being
   sorted under its comparison, say) holds of the ordered versions, and the
   list it is given is exactly the backend's versions.
   */
  lemma OrderedVersionsEstablish(
    backend: Backend, orderVersions: seq<string> -> seq<string>, project: Project,
    guarantee: seq<string> -> bool)
    requires forall vs :: guarantee(orderVersions(vs))
    ensures GetOrderedVersions(backend, orderVersions, project).Ok? ==>
              && guarantee(GetOrderedVersions(backend, orderVersions, project).value)
              && GetOrderedVersions(backend, orderVersions, project).value ==
                 orderVersions(backend.getVersions(project).value)
  {
  }

  /**
   With an `order_versions` that only rearranges, the ordered versions hold
   exactly the backend's versions, each as often as before.
   */
  lemma OrderedVersionsPermute(
    backend: Backend, orderVersions: seq<string> -> seq<string>, project: Project)
    requires Permutes(orderVersions)
    ensures GetOrderedVersions(backend, orderVersions, project).Ok? ==>
              && multiset(GetOrderedVersions(backend, orderVersions, project).value) ==
                 multiset(backend.getVersions(project).value)
              && Elems(GetOrderedVersions(backend, orderVersions, project).value) ==
                 Elems(backend.getVersions(project).value)
  {
    var r := GetOrderedVersions(backend, orderVersions, project);
    if r.Ok? {
      var vs := backend.getVersions(project).value;
      assert multiset(r.value) == multiset(vs);
      assert forall v :: v in r.value <==> v in multiset(r.value);
      assert forall v :: v in vs <==> v in multiset(vs);
    }
  }
}
