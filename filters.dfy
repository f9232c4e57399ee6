/**
 * The two Jinja template filters of Markis/views.py: `breadcrumb`, which turns
 * a request path into the ordered name-to-URL dictionary the page header
 * shows, and `file_icon`, which picks an icon name for a MIME type.
 */
module TemplateFilters {
  import opened Wrappers
  import opened Text
  import opened Config

  // ---------------------------------------------------------------------------
  // An insertion-ordered dictionary from strings to strings

  /**
   * A Python dict with string keys and values, as the list of its items in
   * insertion order. Assigning to an existing key keeps its position.
   */
  type Dict = seq<(string, string)>

  /** The keys, in insertion order. */
  function Keys(d: Dict): (ks: seq<string>)
    ensures |ks| == |d|
  {
    if d == [] then [] else [d[0].0] + Keys(d[1..])
  }

  predicate HasKey(d: Dict, k: string)
  {
    k in Keys(d)
  }

  /** No element occurs twice. */
  predicate Distinct(s: seq<string>)
  {
    s == [] || (s[0] !in s[1..] && Distinct(s[1..]))
  }

  /** A Python dict never holds a key twice. */
  predicate UniqueKeys(d: Dict)
  {
    Distinct(Keys(d))
  }

  /** `d.get(k)`. */
  function Lookup(d: Dict, k: string): Option<string>
  {
    if d == [] then None
    else if d[0].0 == k then Some(d[0].1)
    else Lookup(d[1..], k)
  }

  /** `d.get(k)` is `None` exactly for a missing key, and otherwise a value stored under `k`. */
  lemma {:induction false} LookupNone(d: Dict, k: string)
    ensures Lookup(d, k).None? <==> !HasKey(d, k)
    ensures Lookup(d, k).Some? ==> (k, Lookup(d, k).value) in d
  {
    if d != [] && d[0].0 != k {
      LookupNone(d[1..], k);
      assert d == [d[0]] + d[1..];
    }
  }

  /**
   * `d[k] = v`: a present key keeps its place and takes the new value, a new
   * key is appended.
   */
  function Put(d: Dict, k: string, v: string): Dict
  {
    if d == [] then [(k, v)]
    else if d[0].0 == k then [(k, v)] + d[1..]
    else [d[0]] + Put(d[1..], k, v)
  }

  /** Assigning to a present key keeps the keys in place; a new key goes last. */
  lemma {:induction false} PutKeys(d: Dict, k: string, v: string)
    ensures HasKey(d, k) ==> Keys(Put(d, k, v)) == Keys(d)
    ensures !HasKey(d, k) ==> Put(d, k, v) == d + [(k, v)]
  {
    if d != [] {
      var r := Put(d, k, v);
      if d[0].0 == k {
        assert r[1..] == d[1..];
      } else {
        PutKeys(d[1..], k, v);
        assert r[1..] == Put(d[1..], k, v);
        assert d == [d[0]] + d[1..];
      }
    }
  }

  lemma {:induction false} DistinctSnoc(s: seq<string>, x: string)
    requires Distinct(s) && x !in s
    ensures Distinct(s + [x])
  {
    if s != [] {
      assert (s + [x])[1..] == s[1..] + [x];
      DistinctSnoc(s[1..], x);
    }
  }

  lemma {:induction false} KeysSnoc(d: Dict, item: (string, string))
    ensures Keys(d + [item]) == Keys(d) + [item.0]
  {
    if d != [] {
      assert (d + [item])[1..] == d[1..] + [item];
      KeysSnoc(d[1..], item);
    }
  }

  /** Assignment keeps keys distinct, makes `k` map to `v` and leaves every other key as it was. */
  lemma {:induction false} PutLookup(d: Dict, k: string, v: string)
    ensures UniqueKeys(d) ==> UniqueKeys(Put(d, k, v))
    ensures Lookup(Put(d, k, v), k) == Some(v)
    ensures forall k' :: k' != k ==> Lookup(Put(d, k, v), k') == Lookup(d, k')
  {
    PutKeys(d, k, v);
    if !HasKey(d, k) {
      KeysSnoc(d, (k, v));
      if UniqueKeys(d) {
        DistinctSnoc(Keys(d), k);
      }
    }
    if d != [] && d[0].0 != k {
      PutLookup(d[1..], k, v);
      assert Put(d, k, v)[1..] == Put(d[1..], k, v);
    } else if d != [] {
      assert Put(d, k, v)[1..] == d[1..];
    }
  }

  /** The dictionary without key `k`, in order. */
  function Remove(d: Dict, k: string): Dict
  {
    if d == [] then []
    else if d[0].0 == k then Remove(d[1..], k)
    else [d[0]] + Remove(d[1..], k)
  }

  /** Removing `k` leaves exactly the other keys. */
  lemma {:induction false} RemoveKeys(d: Dict, k: string, x: string)
    ensures HasKey(Remove(d, k), x) <==> HasKey(d, x) && x != k
  {
    if d != [] {
      RemoveKeys(d[1..], k, x);
      if d[0].0 != k {
        var r := Remove(d, k);
        assert r[1..] == Remove(d[1..], k);
      }
    }
  }

  /** `d.pop(k)` for its effect on `d`; `None` is the `KeyError` of a missing key. */
  function Pop(d: Dict, k: string): Option<Dict>
  {
    if HasKey(d, k) then Some(Remove(d, k)) else None
  }

  /** Popping a key removes that key alone and keeps keys distinct. */
  lemma {:induction false} PopLookup(d: Dict, k: string)
    requires HasKey(d, k)
    ensures UniqueKeys(d) ==> UniqueKeys(Pop(d, k).value)
    ensures Lookup(Pop(d, k).value, k).None?
    ensures forall k' :: k' != k ==> Lookup(Pop(d, k).value, k') == Lookup(d, k')
  {
    RemoveLookup(d, k);
    RemoveKeys(d, k, k);
    LookupNone(Remove(d, k), k);
  }

  lemma {:induction false} RemoveLookup(d: Dict, k: string)
    ensures UniqueKeys(d) ==> UniqueKeys(Remove(d, k))
    ensures forall k' :: k' != k ==> Lookup(Remove(d, k), k') == Lookup(d, k')
  {
    if d != [] {
      RemoveLookup(d[1..], k);
      if d[0].0 != k {
        var r := Remove(d, k);
        assert r[1..] == Remove(d[1..], k);
        RemoveKeys(d[1..], k, d[0].0);
      }
    }
  }

  // ---------------------------------------------------------------------------
  // breadcrumb

  /** `list(filter(('').__ne__, parts))`: the parts that are not empty, in order. */
  function NonEmpty(parts: seq<string>): seq<string>
  {
    if parts == [] then []
    else
      var init := NonEmpty(parts[..|parts| - 1]);
      var last := parts[|parts| - 1];
      if last != "" then init + [last] else init
  }

  /** The filter keeps exactly the non-empty parts. */
  lemma {:induction false} NonEmptyMembers(parts: seq<string>, x: string)
    ensures x in NonEmpty(parts) <==> x in parts && x != ""
  {
    if parts != [] {
      var init := parts[..|parts| - 1];
      NonEmptyMembers(init, x);
      assert parts == init + [parts[|parts| - 1]];
    }
  }

  /** The path built from the segments so far: "/" before each of them. */
  function CumulativePath(segs: seq<string>): string
  {
    if segs == [] then "" else CumulativePath(segs[..|segs| - 1]) + "/" + segs[|segs| - 1]
  }

  /** The cumulative path of a non-empty list of segments is "/" followed by their '/'-join. */
  lemma {:induction false} CumulativePathIsJoin(segs: seq<string>)
    requires |segs| >= 1
    ensures CumulativePath(segs) == "/" + Join(segs, '/')
  {
    if |segs| > 1 {
      var init := segs[..|segs| - 1];
      CumulativePathIsJoin(init);
      JoinSnoc(init, segs[|segs| - 1], '/');
      assert init + [segs[|segs| - 1]] == segs;
    } else {
      assert segs[..0] == [];
    }
  }

  /** The dictionary the loop has built after the segments `segs`. */
  function Crumbs(segs: seq<string>): Dict
  {
    if segs == [] then [("home", "/")]
    else Put(Crumbs(segs[..|segs| - 1]), segs[|segs| - 1], CumulativePath(segs))
  }

  /** The position of the last occurrence of `x` in `s`. */
  function LastIndex(s: seq<string>, x: string): (i: nat)
    requires x in s
    ensures i < |s| && s[i] == x
  {
    if s[|s| - 1] == x then |s| - 1
    else
      assert x in s[..|s| - 1] by {
        var j :| 0 <= j < |s| && s[j] == x;
        assert s[..|s| - 1][j] == x;
      }
      LastIndex(s[..|s| - 1], x)
  }

  /** No occurrence of `x` comes after `LastIndex(s, x)`. */
  lemma {:induction false} LastIndexIsLast(s: seq<string>, x: string)
    requires x in s
    ensures forall j :: LastIndex(s, x) < j < |s| ==> s[j] != x
  {
    if s[|s| - 1] != x {
      var init := s[..|s| - 1];
      assert x in init by {
        var j :| 0 <= j < |s| && s[j] == x;
        assert init[j] == x;
      }
      LastIndexIsLast(init, x);
      forall j | LastIndex(s, x) < j < |s| ensures s[j] != x {
        if j < |s| - 1 {
          assert init[j] == s[j];
        }
      }
    }
  }

  /** The keys of the built dictionary stay distinct. */
  lemma {:induction false} CrumbsUnique(segs: seq<string>)
    ensures UniqueKeys(Crumbs(segs))
  {
    if segs != [] {
      var init := segs[..|segs| - 1];
      CrumbsUnique(init);
      PutLookup(Crumbs(init), segs[|segs| - 1], CumulativePath(segs));
    }
  }

  /** After the segments `segs`, each of them maps to the path up to its last occurrence. */
  lemma {:induction false} CrumbsLookupSegment(segs: seq<string>, k: string)
    requires k in segs
    ensures Lookup(Crumbs(segs), k) == Some(CumulativePath(segs[..LastIndex(segs, k) + 1]))
  {
    LastIndexIsLast(segs, k);
    CrumbsLookupAt(segs, k, LastIndex(segs, k));
  }

  /** A segment maps to the path up to position `i` when `i` is its last occurrence. */
  lemma {:induction false} CrumbsLookupAt(segs: seq<string>, k: string, i: nat)
    requires i < |segs| && segs[i] == k
    requires forall j :: i < j < |segs| ==> segs[j] != k
    ensures Lookup(Crumbs(segs), k) == Some(CumulativePath(segs[..i + 1]))
  {
    var init := segs[..|segs| - 1];
    if i == |segs| - 1 {
      assert segs[..i + 1] == segs;
      CrumbsStep(segs, k);
    } else {
      assert init[i] == k;
      assert forall j :: i < j < |init| ==> init[j] != k by {
        forall j | i < j < |init| ensures init[j] != k {
          assert init[j] == segs[j];
        }
      }
      assert init[..i + 1] == segs[..i + 1];
      CrumbsLookupAt(init, k, i);
      CrumbsStep(segs, k);
    }
  }

  /** A key that is no segment is absent, except "home", which keeps "/". */
  lemma {:induction false} CrumbsLookupOther(segs: seq<string>, k: string)
    requires k !in segs
    ensures Lookup(Crumbs(segs), k) == if k == "home" then Some("/") else None
  {
    if segs == [] {
    } else {
      var init := segs[..|segs| - 1];
      assert k !in init;
      CrumbsStep(segs, k);
      CrumbsLookupOther(init, k);
    }
  }

  /** One more segment sets its own key and leaves the others. */
  lemma CrumbsStep(segs: seq<string>, k: string)
    requires segs != []
    ensures Lookup(Crumbs(segs), k) ==
              if k == segs[|segs| - 1] then Some(CumulativePath(segs)) else Lookup(Crumbs(segs[..|segs| - 1]), k)
  {
    CrumbsUnique(segs[..|segs| - 1]);
    PutLookup(Crumbs(segs[..|segs| - 1]), segs[|segs| - 1], CumulativePath(segs));
  }

  /**
   * `get_breadcrumb_path(url)`: the dictionary of the non-empty segments of
   * the URL with "subject" popped; `None` where the pop raises `KeyError`.
   */
  function Breadcrumb(url: string): Option<Dict>
  {
    Pop(Crumbs(NonEmpty(Split(url, '/'))), "subject")
  }

  /** The pop succeeds exactly when some segment is "subject". */
  lemma PopSubjectSucceeds(segs: seq<string>)
    ensures Pop(Crumbs(segs), "subject").Some? <==> "subject" in segs
  {
    LookupNone(Crumbs(segs), "subject");
    if "subject" in segs {
      CrumbsLookupSegment(segs, "subject");
    } else {
      CrumbsLookupOther(segs, "subject");
    }
  }

  /**
   * Once "subject" is popped, keys are distinct, "subject" is gone, every other
   * segment maps to the path up to its last occurrence, "home" maps to "/"
   * unless a segment is named so, and nothing else is a key.
   */
  lemma PoppedCrumbsLookup(segs: seq<string>, k: string)
    requires "subject" in segs
    ensures Pop(Crumbs(segs), "subject").Some?
    ensures UniqueKeys(Pop(Crumbs(segs), "subject").value)
    ensures k == "subject" ==> Lookup(Pop(Crumbs(segs), "subject").value, k).None?
    ensures k != "subject" && k in segs ==>
              Lookup(Pop(Crumbs(segs), "subject").value, k) == Some(CumulativePath(segs[..LastIndex(segs, k) + 1]))
    ensures k !in segs ==> Lookup(Pop(Crumbs(segs), "subject").value, k) == if k == "home" then Some("/") else None
  {
    CrumbsUnique(segs);
    CrumbsLookupSegment(segs, "subject");
    LookupNone(Crumbs(segs), "subject");
    PopLookup(Crumbs(segs), "subject");
    if k in segs {
      CrumbsLookupSegment(segs, k);
    } else {
      CrumbsLookupOther(segs, k);
    }
  }

  /** The breadcrumb of a URL exists exactly when a non-empty segment is "subject". */
  lemma BreadcrumbExists(url: string)
    ensures Breadcrumb(url).Some? <==> "subject" in NonEmpty(Split(url, '/'))
  {
    var segs := NonEmpty(Split(url, '/'));
    assert Breadcrumb(url) == Pop(Crumbs(segs), "subject");
    PopSubjectSucceeds(segs);
  }

  /**
   * In the breadcrumb, every non-empty segment other than "subject" links to
   * the path up to its last occurrence.
   */
  lemma {:induction false} BreadcrumbSegment(url: string, k: string)
    requires Breadcrumb(url).Some?
    requires k != "subject" && k in NonEmpty(Split(url, '/'))
    ensures var segs := NonEmpty(Split(url, '/'));
            Lookup(Breadcrumb(url).value, k) == Some(CumulativePath(segs[..LastIndex(segs, k) + 1]))
  {
    var segs := NonEmpty(Split(url, '/'));
    assert Breadcrumb(url) == Pop(Crumbs(segs), "subject");
    BreadcrumbExists(url);
    PoppedCrumbsLookup(segs, k);
  }

  /**
   * In the breadcrumb, a key that is no non-empty segment is absent, except
   * "home", which links to "/".
   */
  lemma {:induction false} BreadcrumbOther(url: string, k: string)
    requires Breadcrumb(url).Some?
    requires k !in NonEmpty(Split(url, '/'))
    ensures Lookup(Breadcrumb(url).value, k) == if k == "home" then Some("/") else None
  {
    var segs := NonEmpty(Split(url, '/'));
    assert Breadcrumb(url) == Pop(Crumbs(segs), "subject");
    BreadcrumbExists(url);
    PoppedCrumbsLookup(segs, k);
  }

  /** The parts of `/subject/<s>/<f>` split at '/'. */
  lemma SubjectPageSplit(s: string, f: string)
    requires '/' !in s && '/' !in f
    ensures Split("/subject/" + s + "/" + f, '/') == ["", "subject", s, f]
  {
    var url := "/subject/" + s + "/" + f;
    assert url == "" + ['/'] + ("subject" + ['/'] + s + ['/'] + f);
    SplitAtFirstSep("", '/', "subject" + ['/'] + s + ['/'] + f);
    SplitThree("subject", s, f, '/');
  }

  /** The non-empty segments of `/subject/<s>/<f>`. */
  lemma SubjectPageSegments(s: string, f: string)
    requires s != "" && f != "" && '/' !in s && '/' !in f
    ensures NonEmpty(Split("/subject/" + s + "/" + f, '/')) == ["subject", s, f]
  {
    var parts := ["", "subject", s, f];
    assert NonEmpty(["", "subject", s]) == ["subject", s] by {
      assert ["", "subject", s][..2] == ["", "subject"];
      assert NonEmpty(["", "subject"]) == ["subject"] by {
        assert ["", "subject"][..1] == [""];
        assert [""][..0] == [];
      }
    }
    assert parts[..3] == ["", "subject", s];
    SubjectPageSplit(s, f);
  }

  /** The dictionary built from the segments "subject", `s`, `f`, before the pop. */
  lemma SubjectPageCrumbs(s: string, f: string)
    requires s != "subject" && f != "subject" && s != "home" && f != "home" && s != f
    ensures Crumbs(["subject", s, f]) ==
              [("home", "/"), ("subject", "/subject"), (s, "/subject/" + s), (f, "/subject/" + s + "/" + f)]
  {
    var segs := ["subject", s, f];
    var c0 := [("home", "/")];
    var c1 := c0 + [("subject", "/subject")];
    var c2 := c1 + [(s, "/subject/" + s)];
    var c3 := c2 + [(f, "/subject/" + s + "/" + f)];
    assert ["subject"][..0] == [] && ["subject", s][..1] == ["subject"] && segs[..2] == ["subject", s];
    assert CumulativePath(["subject"]) == "/subject";
    assert CumulativePath(["subject", s]) == "/subject/" + s;
    assert CumulativePath(segs) == "/subject/" + s + "/" + f;
    assert Keys(c0) == ["home"];
    assert Crumbs(["subject"]) == c1 by {
      assert !HasKey(c0, "subject");
      PutKeys(c0, "subject", "/subject");
    }
    KeysSnoc(c0, ("subject", "/subject"));
    assert Crumbs(["subject", s]) == c2 by {
      assert !HasKey(c1, s);
      PutKeys(c1, s, "/subject/" + s);
    }
    KeysSnoc(c1, (s, "/subject/" + s));
    assert !HasKey(c2, f);
    PutKeys(c2, f, "/subject/" + s + "/" + f);
  }

  /**
   * The breadcrumb of a folder page `/subject/<s>/<f>`: "home", then the
   * subject, then the folder, each linked to its own path, in that order.
   */
  lemma SubjectPageBreadcrumb(s: string, f: string)
    requires s != "" && f != "" && '/' !in s && '/' !in f
    requires s != "subject" && f != "subject" && s != "home" && f != "home" && s != f
    ensures Breadcrumb("/subject/" + s + "/" + f) ==
              Some([("home", "/"), (s, "/subject/" + s), (f, "/subject/" + s + "/" + f)])
  {
    SubjectPageSegments(s, f);
    SubjectPageCrumbs(s, f);
    var home, subj, sub, fold := ("home", "/"), ("subject", "/subject"), (s, "/subject/" + s),
                                 (f, "/subject/" + s + "/" + f);
    var c3 := [home, subj, sub, fold];
    assert HasKey(c3, "subject") by {
      assert c3[1].0 == "subject";
    }
    assert [fold][1..] == [] && Remove([fold], "subject") == [fold];
    assert [sub, fold][1..] == [fold] && Remove([sub, fold], "subject") == [sub, fold];
    assert [subj, sub, fold][1..] == [sub, fold] && Remove([subj, sub, fold], "subject") == [sub, fold];
    assert c3[1..] == [subj, sub, fold];
    assert Remove(c3, "subject") == [home, sub, fold];
    assert Breadcrumb("/subject/" + s + "/" + f) == Pop(c3, "subject");
  }

  /** The loop of `get_breadcrumb_path`, one segment at a time. */
  method GetBreadcrumbPath(url: string) returns (r: Option<Dict>)
    ensures r == Breadcrumb(url)
  {
    var d: Dict := [("home", "/")];
    var currpath := "";
    var urlList := Split(url, '/');
    urlList := NonEmpty(urlList);
    for i := 0 to |urlList|
      invariant currpath == CumulativePath(urlList[..i])
      invariant d == Crumbs(urlList[..i])
    {
      assert urlList[..i + 1][..i] == urlList[..i];
      currpath := currpath + "/" + urlList[i];
      d := Put(d, urlList[i], currpath);
    }
    assert urlList[..|urlList|] == urlList;
    r := Pop(d, "subject");
  }

  // ---------------------------------------------------------------------------
  // file_icon

  /** The key `icon_fmt` looks up: the whole type for application types, else the major type and "/". */
  function IconKey(mime: string): string
  {
    var major := Split(mime, '/')[0];
    if major == "application" then mime else major + "/"
  }

  /** `icon_fmt(mime)`: the icon of the lookup key, or the default icon. */
  function IconFmt(mime: string): string
  {
    var key := IconKey(mime);
    if key in FileIcons then FileIcons[key] else FileIcons["default"]
  }

  /** Every MIME type gets one of the configured icons. */
  lemma IconIsConfigured(mime: string)
    ensures IconFmt(mime) in FileIcons.Values
  {
    var key := IconKey(mime);
    if key !in FileIcons {
      assert "default" in FileIcons;
    }
  }

  /**
   * The default icon "file" is given exactly when the lookup misses: no
   * lookup key is "default" and no other entry holds "file".
   */
  lemma DefaultIconIffMiss(mime: string)
    ensures IconFmt(mime) == "file" <==> IconKey(mime) !in FileIcons
  {
    var key := IconKey(mime);
    assert key != "default" by {
      if Split(mime, '/')[0] == "application" {
        if mime == "default" {
          SplitWithoutSep(mime, '/');
        }
      } else {
        assert key[|key| - 1] == '/';
      }
    }
  }

  /** For a type other than application types, the icon depends on the major type alone. */
  lemma IconByMajorType(major: string, sub1: string, sub2: string)
    requires '/' !in major && major != "application"
    ensures IconFmt(major + "/" + sub1) == IconFmt(major + "/" + sub2)
    ensures IconKey(major + "/" + sub1) == major + "/"
  {
    SplitAtFirstSep(major, '/', sub1);
    SplitAtFirstSep(major, '/', sub2);
  }

  /**
   * An application type is looked up whole, so only the listed subtypes get
   * their own icon and every other one gets the default icon.
   */
  lemma ApplicationIconByFullType(sub: string)
    ensures IconKey("application/" + sub) == "application/" + sub
    ensures IconFmt("application/" + sub) ==
              if "application/" + sub in FileIcons then FileIcons["application/" + sub] else "file"
  {
    assert "application/" + sub == "application" + ['/'] + sub;
    SplitAtFirstSep("application", '/', sub);
  }

  /** Any image type gets the image icon. */
  lemma ImageIcon(sub: string)
    ensures IconFmt("image/" + sub) == "file-image"
  {
    assert "image/" + sub == "image" + "/" + sub;
    IconByMajorType("image", sub, sub);
    assert "image" + "/" == "image/";
  }
}
