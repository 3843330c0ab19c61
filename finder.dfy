/**
 * The finder: a search path parsed into elements, searched in order.  `find`
 * returns the first element's region, `exists` asks every element, and the
 * iterator enumerates the elements' names one element after another.
 */
module Finders {
  import opened Util
  import opened Host
  import opened Zip
  import opened JarIndexes
  import opened Elements

  const LeftBracket: uint8 := 0x5B
  const RightBracket: uint8 := 0x5D

  // ---------------------------------------------------------------------
  // parsePath

  /** A token `[x]` names a builtin archive x. */
  predicate Bracketed(token: Bytes)
  {
    |token| > 0 && token[0] == LeftBracket && token[|token| - 1] == RightBracket
  }

  /**
   * The element one token of the path becomes, if any: a builtin element for
   * `[x]`, a JAR element for a file, a directory element for a directory.
   */
  function Classify(s: System, token: Bytes, bootLibrary: Option<Bytes>): (r: Option<PathElement>)
    ensures r.Some? && r.value.kind.Builtin? <==> Bracketed(token)
    ensures Bracketed(token) ==> |token| >= 2 && r == Some(PathElement(Builtin(bootLibrary), token[1..|token| - 1]))
    ensures !Bracketed(token) ==>
              && (r.Some? <==> s.identify(token) == TypeFile || s.identify(token) == TypeDirectory)
              && (r.Some? ==> r.value.name == token)
              && (r.Some? ==> (r.value.kind.Jar? <==> s.identify(token) == TypeFile))
  {
    if Bracketed(token) then Some(PathElement(Builtin(bootLibrary), token[1..|token| - 1]))
    else match s.identify(token)
      case TypeFile => Some(PathElement(Jar, token))
      case TypeDirectory => Some(PathElement(Directory, token))
      case _ => None
  }

  /** The elements a sequence of tokens yields, in token order. */
  function Parse(s: System, tokens: seq<Bytes>, bootLibrary: Option<Bytes>): (r: seq<PathElement>)
    ensures |r| <= |tokens|
  {
    if tokens == [] then []
    else
      (match Classify(s, tokens[0], bootLibrary) case Some(e) => [e] case None => [])
      + Parse(s, tokens[1..], bootLibrary)
  }

  /** Parsing a path made of two parts yields the elements of the first part, then those of the second. */
  lemma {:induction false} ParseAppend(s: System, a: seq<Bytes>, b: seq<Bytes>, bootLibrary: Option<Bytes>)
    ensures Parse(s, a + b, bootLibrary) == Parse(s, a, bootLibrary) + Parse(s, b, bootLibrary)
    decreases |a|
  {
    if a == [] {
      assert a + b == b;
    } else {
      assert (a + b)[0] == a[0];
      assert (a + b)[1..] == a[1..] + b;
      ParseAppend(s, a[1..], b, bootLibrary);
    }
  }

  /** Every element comes from some token, and a token yields at most one element. */
  lemma {:induction false} ParseFromTokens(s: System, tokens: seq<Bytes>, bootLibrary: Option<Bytes>)
    ensures forall e :: e in Parse(s, tokens, bootLibrary) ==>
              exists t :: t in tokens && Classify(s, t, bootLibrary) == Some(e)
    decreases |tokens|
  {
    if tokens != [] {
      ParseFromTokens(s, tokens[1..], bootLibrary);
      forall e | e in Parse(s, tokens, bootLibrary)
        ensures exists t :: t in tokens && Classify(s, t, bootLibrary) == Some(e)
      {
        if e !in Parse(s, tokens[1..], bootLibrary) {
          assert Classify(s, tokens[0], bootLibrary) == Some(e);
        } else {
          var t :| t in tokens[1..] && Classify(s, t, bootLibrary) == Some(e);
          assert t in tokens;
        }
      }
    }
  }

  function Describes(path: seq<Element>): (r: seq<PathElement>)
    ensures |r| == |path| && forall i :: 0 <= i < |path| ==> r[i] == path[i].Describe()
  {
    seq(|path|, i requires 0 <= i < |path| => path[i].Describe())
  }

  /** Describing a path with one more element adds that element's description. */
  lemma DescribesSnoc(path: seq<Element>, e: Element)
    ensures Describes(path + [e]) == Describes(path) + [e.Describe()]
  {
    assert forall i :: 0 <= i < |path| ==> (path + [e])[i] == path[i];
  }

  /** The element one token of the path becomes, as an object, if any. */
  method ElementOf(s: System, token: Bytes, bootLibrary: Option<Bytes>) returns (e: Element?)
    ensures e == null <==> Classify(s, token, bootLibrary).None?
    ensures e != null ==> fresh(e) && e.Valid() && e.s == s && Classify(s, token, bootLibrary) == Some(e.Describe())
  {
    var kind: Option<Kind>;
    var name := token;
    if |token| > 0 && token[0] == LeftBracket && token[|token| - 1] == RightBracket {
      name := token[1..|token| - 1];
      kind := Some(Builtin(bootLibrary));
    } else {
      var t := s.identify(token);
      if t == TypeFile {
        kind := Some(Jar);
      } else if t == TypeDirectory {
        kind := Some(Directory);
      } else {
        kind := None;
      }
    }
    if kind.Some? {
      e := new Element(s, kind.value, name);
    } else {
      e := null;
    }
  }

  /** The path with the element of one more token linked at its end, if the token yields one. */
  method Extend(s: System, path: seq<Element>, token: Bytes, bootLibrary: Option<Bytes>) returns (longer: seq<Element>)
    requires ElementsValid(s, path)
    ensures ElementsValid(s, longer)
    ensures Describes(longer) == Describes(path) + Parse(s, [token], bootLibrary)
    ensures |path| <= |longer|
    ensures forall j :: 0 <= j < |longer| ==> (j < |path| && longer[j] == path[j]) || fresh(longer[j])
  {
    assert [token][1..] == [];
    var e := ElementOf(s, token, bootLibrary);
    forall j | 0 <= j < |path|
      ensures path[j].Valid() && path[j].s == s
    {
      assert old(path[j].Valid());
      assert path[j].Footprint() == old(path[j].Footprint());
    }
    longer := path;
    if e != null {
      DescribesSnoc(path, e);
      longer := path + [e];
    }
  }

  /**
   * parsePath: classify the tokens one by one and link the elements that
   * survive, in token order.
   */
  method ParsePath(s: System, tokens: seq<Bytes>, bootLibrary: Option<Bytes>) returns (path: seq<Element>)
    ensures Describes(path) == Parse(s, tokens, bootLibrary)
    ensures forall i :: 0 <= i < |path| ==> fresh(path[i]) && path[i].Valid() && path[i].s == s
  {
    path := [];
    var i := 0;
    while i < |tokens|
      invariant i <= |tokens|
      invariant Describes(path) == Parse(s, tokens[..i], bootLibrary)
      invariant ElementsValid(s, path)
      invariant forall j :: 0 <= j < |path| ==> fresh(path[j])
    {
      assert tokens[..i + 1] == tokens[..i] + [tokens[i]];
      ParseAppend(s, tokens[..i], [tokens[i]], bootLibrary);
      path := Extend(s, path, tokens[i], bootLibrary);
      i := i + 1;
    }
    assert tokens[..i] == tokens;
  }

  // ---------------------------------------------------------------------
  // find and exists over the whole path

  /** The answer of the first element that finds the name, or Absent. */
  function FirstFound(s: System, es: seq<PathElement>, n: Bytes): Lookup
  {
    if es == [] then Absent
    else if ElementFind(s, es[0], n) != Absent then ElementFind(s, es[0], n)
    else FirstFound(s, es[1..], n)
  }

  /**
   * The path's answer is Absent exactly when every element answers Absent;
   * otherwise it is the answer of an element all of whose predecessors answer Absent.
   */
  lemma {:induction false} FirstFoundIsFirst(s: System, es: seq<PathElement>, n: Bytes)
    ensures FirstFound(s, es, n) == Absent <==> forall i :: 0 <= i < |es| ==> ElementFind(s, es[i], n) == Absent
    ensures FirstFound(s, es, n) != Absent ==>
              exists i :: 0 <= i < |es| && FirstFound(s, es, n) == ElementFind(s, es[i], n) &&
                          forall j :: 0 <= j < i ==> ElementFind(s, es[j], n) == Absent
    decreases |es|
  {
    if es == [] {
    } else if ElementFind(s, es[0], n) != Absent {
      assert FirstFound(s, es, n) == ElementFind(s, es[0], n);
    } else {
      var rest := es[1..];
      assert FirstFound(s, es, n) == FirstFound(s, rest, n);
      FirstFoundIsFirst(s, rest, n);
      assert forall i :: 1 <= i < |es| ==> es[i] == rest[i - 1];
      if FirstFound(s, rest, n) != Absent {
        var k :| 0 <= k < |rest| && FirstFound(s, rest, n) == ElementFind(s, rest[k], n) &&
                 forall j :: 0 <= j < k ==> ElementFind(s, rest[j], n) == Absent;
        assert FirstFound(s, es, n) == ElementFind(s, es[k + 1], n);
      }
    }
  }

  /** Searching from element k on asks element k first. */
  lemma FirstFoundStep(s: System, es: seq<PathElement>, k: nat, n: Bytes)
    requires k < |es|
    ensures FirstFound(s, es[k..], n) ==
              if ElementFind(s, es[k], n) != Absent then ElementFind(s, es[k], n) else FirstFound(s, es[k + 1..], n)
  {
    assert es[k..][0] == es[k];
    assert es[k..][1..] == es[k + 1..];
  }

  /** Whether some element says the name exists. */
  function AnyExists(s: System, es: seq<PathElement>, n: Bytes): bool
  {
    if es == [] then false
    else ElementExists(s, es[0], n) || AnyExists(s, es[1..], n)
  }

  /** The path says a name exists exactly when some element says so. */
  lemma {:induction false} AnyExistsIsSome(s: System, es: seq<PathElement>, n: Bytes)
    ensures AnyExists(s, es, n) <==> exists i :: 0 <= i < |es| && ElementExists(s, es[i], n)
    decreases |es|
  {
    if es != [] {
      AnyExistsIsSome(s, es[1..], n);
      assert forall i :: 1 <= i < |es| ==> es[i] == es[1..][i - 1];
    }
  }

  /** Asking from element k on asks element k first. */
  lemma AnyExistsStep(s: System, es: seq<PathElement>, k: nat, n: Bytes)
    requires k < |es|
    ensures AnyExists(s, es[k..], n) == (ElementExists(s, es[k], n) || AnyExists(s, es[k + 1..], n))
  {
    assert es[k..][0] == es[k];
    assert es[k..][1..] == es[k + 1..];
  }

  /** Searching a path made of two parts searches the second part only when the first finds nothing. */
  lemma {:induction false} FirstFoundAppend(s: System, a: seq<PathElement>, b: seq<PathElement>, n: Bytes)
    ensures FirstFound(s, a + b, n) == if FirstFound(s, a, n) != Absent then FirstFound(s, a, n) else FirstFound(s, b, n)
    decreases |a|
  {
    if a == [] {
      assert a + b == b;
    } else {
      assert (a + b)[0] == a[0];
      assert (a + b)[1..] == a[1..] + b;
      FirstFoundAppend(s, a[1..], b, n);
    }
  }

  /** On a path of JAR and builtin elements, `find` finds a region exactly when `exists` says yes. */
  lemma {:induction false} ArchivePathFindAgreesWithExists(s: System, es: seq<PathElement>, n: Bytes)
    requires forall i :: 0 <= i < |es| ==> !es[i].kind.Directory?
    ensures FirstFound(s, es, n) != Absent <==> AnyExists(s, es, n)
    decreases |es|
  {
    if es != [] {
      FindAgreesWithExists(s, es[0], n);
      ArchivePathFindAgreesWithExists(s, es[1..], n);
    }
  }

  // ---------------------------------------------------------------------
  // The iterator over the whole path

  /** The names of every element, element after element. */
  function AllNames(s: System, es: seq<PathElement>): seq<Bytes>
  {
    if es == [] then [] else ElementNames(s, es[0]) + AllNames(s, es[1..])
  }

  /** Enumerating a path made of two parts enumerates the first part, then the second. */
  lemma {:induction false} AllNamesAppend(s: System, a: seq<PathElement>, b: seq<PathElement>)
    ensures AllNames(s, a + b) == AllNames(s, a) + AllNames(s, b)
    decreases |a|
  {
    if a == [] {
      assert a + b == b;
    } else {
      DropFirstOfConcat(a, b);
      AllNamesAppend(s, a[1..], b);
      var first := ElementNames(s, a[0]);
      calc {
        AllNames(s, a + b);
        first + AllNames(s, a[1..] + b);
        first + (AllNames(s, a[1..]) + AllNames(s, b));
        (first + AllNames(s, a[1..])) + AllNames(s, b);
      }
    }
  }

  /** Enumerating from element k on enumerates element k, then the elements after it. */
  lemma AllNamesStep(s: System, es: seq<PathElement>, k: nat)
    requires k < |es|
    ensures AllNames(s, es[k..]) == ElementNames(s, es[k]) + AllNames(s, es[k + 1..])
  {
    assert es[k..][0] == es[k];
    assert es[k..][1..] == es[k + 1..];
  }

  lemma DropFirstOfConcat<T>(a: seq<T>, b: seq<T>)
    requires a != []
    ensures (a + b)[0] == a[0] && (a + b)[1..] == a[1..] + b
  {
  }

  /** Every element of the path is valid, and all use the finder's system. */
  ghost predicate ElementsValid(s: System, path: seq<Element>)
    reads set i | 0 <= i < |path| :: path[i]
    reads set i, o | 0 <= i < |path| && o in path[i].Footprint() :: o
  {
    forall i :: 0 <= i < |path| ==> path[i].Valid() && path[i].s == s
  }

  /*
   * One element of the path answers; it changes only itself (and may build
   * its index), so every other element stays valid.
   */

  method FindAt(s: System, path: seq<Element>, i: nat, n: Bytes) returns (r: Lookup)
    requires i < |path| && ElementsValid(s, path)
    modifies path[i]
    ensures ElementsValid(s, path)
    ensures r == ElementFind(s, path[i].Describe(), n)
  {
    r := path[i].Find(n);
    forall j | 0 <= j < |path| && path[j] != path[i]
      ensures path[j].Valid() && path[j].s == s
    {
      assert old(path[j].Valid());
      assert path[j].Footprint() == old(path[j].Footprint());
    }
  }

  method ExistsAt(s: System, path: seq<Element>, i: nat, n: Bytes) returns (r: bool)
    requires i < |path| && ElementsValid(s, path)
    modifies path[i]
    ensures ElementsValid(s, path)
    ensures r == ElementExists(s, path[i].Describe(), n)
  {
    r := path[i].Exists(n);
    forall j | 0 <= j < |path| && path[j] != path[i]
      ensures path[j].Valid() && path[j].s == s
    {
      assert old(path[j].Valid());
      assert path[j].Footprint() == old(path[j].Footprint());
    }
  }

  method IteratorAt(s: System, path: seq<Element>, i: nat) returns (it: ElementIterator)
    requires i < |path| && ElementsValid(s, path)
    modifies path[i]
    ensures ElementsValid(s, path)
    ensures fresh(it) && it.Valid()
    ensures it.Remaining() == ElementNames(s, path[i].Describe())
  {
    it := path[i].Iterator();
    forall j | 0 <= j < |path| && path[j] != path[i]
      ensures path[j].Valid() && path[j].s == s
    {
      assert old(path[j].Valid());
      assert path[j].Footprint() == old(path[j].Footprint());
    }
  }

  /**
   * The first element's iterator, if the path has elements, and the position
   * of the element after it.
   */
  method FirstIterator(s: System, path: seq<Element>) returns (first: ElementIterator?, e: nat)
    requires ElementsValid(s, path)
    modifies set i | 0 <= i < |path| :: path[i]
    ensures ElementsValid(s, path) && e <= |path|
    ensures first == null ==> e == |path|
    ensures first != null ==> fresh(first) && first.Valid()
    ensures (if first == null then [] else first.Remaining()) + AllNames(s, Describes(path)[e..]) == AllNames(s, Describes(path))
  {
    if path == [] {
      first, e := null, 0;
    } else {
      AllNamesStep(s, Describes(path), 0);
      assert Describes(path)[0..] == Describes(path);
      first := IteratorAt(s, path, 0);
      e := 1;
    }
  }

  /**
   * MyIterator: the current element's iterator, and the elements after it,
   * whose iterators are created as the enumeration reaches them.
   */
  class PathIterator {
    const s: System
    const path: seq<Element>
    var e: nat
    var it: ElementIterator?

    ghost function Footprint(): set<object>
      reads this, it
    {
      {this} + (if it == null then {} else it.Footprint())
    }

    /**
     * The current element's iterator is valid.  The elements themselves are
     * the finder's; their validity is asked of the caller of each step.
     */
    ghost predicate Valid()
      reads this, it, Footprint()
    {
      && e <= |path|
      && (it == null ==> e == |path|)
      && (it != null ==> it.Valid())
    }

    /** The names still to come: the rest of the current element's, then every later element's. */
    ghost function Remaining(): seq<Bytes>
      requires Valid()
      reads this, it, Footprint()
    {
      (if it == null then [] else it.Remaining()) + AllNames(s, Describes(path)[e..])
    }

    /** MyIterator(s, path): the first element's iterator, positioned before the second element. */
    constructor (s: System, path: seq<Element>)
      requires ElementsValid(s, path)
      modifies set i | 0 <= i < |path| :: path[i]
      ensures ElementsValid(s, path)
      ensures this.s == s && this.path == path && Valid()
      ensures it == null || fresh(it)
      ensures Remaining() == AllNames(s, Describes(path))
    {
      var first, position := FirstIterator(s, path);
      label created:
      this.s := s;
      this.path := path;
      e := position;
      it := first;
      new;
      forall j | 0 <= j < |path|
        ensures path[j].Valid() && path[j].s == s
      {
        assert old@created(path[j].Valid());
        assert path[j].Footprint() == old@created(path[j].Footprint());
      }
      if first != null {
        assert first.Remaining() == old@created(first.Remaining());
      }
    }

    /** The current element's iterator yields its next name, which is the next name of the whole path. */
    method NextInElement() returns (v: Option<Bytes>)
      requires Valid() && it != null && ElementsValid(s, path)
      modifies it
      ensures Valid() && ElementsValid(s, path) && it == old(it) && e == old(e)
      ensures v.None? ==> it.Remaining() == []
      ensures v.Some? ==> old(Remaining()) != [] && v == Some(old(Remaining())[0]) && Remaining() == old(Remaining())[1..]
      ensures v.None? ==> Remaining() == old(Remaining())
    {
      ghost var current := it.Remaining();
      ghost var later := AllNames(s, Describes(path)[e..]);
      v := it.Next();
      forall j | 0 <= j < |path|
        ensures path[j].Valid() && path[j].s == s
      {
        assert old(path[j].Valid());
        assert path[j].Footprint() == old(path[j].Footprint());
      }
      assert Remaining() == it.Remaining() + later;
      if v.Some? {
        assert old(Remaining()) == current + later;
        DropFirstOfConcat(current, later);
      }
    }

    /** Open the next element's iterator; the names still to come stay the same. */
    method OpenNext()
      requires Valid() && it != null && it.Remaining() == [] && ElementsValid(s, path) && e < |path|
      modifies this, set i | 0 <= i < |path| :: path[i]
      ensures Valid() && ElementsValid(s, path)
      ensures Remaining() == old(Remaining())
      ensures fresh(it) && e == old(e) + 1
    {
      ghost var rest := AllNames(s, Describes(path)[e..]);
      assert old(Remaining()) == rest;
      AllNamesStep(s, Describes(path), e);
      var next := IteratorAt(s, path, e);
      ghost var first := next.Remaining();
      assert rest == first + AllNames(s, Describes(path)[e + 1..]);
      Install(next);
    }

    /** Make `next` the current iterator, positioned before the element after it. */
    method Install(next: ElementIterator)
      requires next.Valid() && ElementsValid(s, path) && e < |path|
      modifies this
      ensures it == next && e == old(e) + 1
      ensures Valid() && ElementsValid(s, path)
      ensures Remaining() == next.Remaining() + AllNames(s, Describes(path)[e..])
      ensures next.Remaining() == old(next.Remaining())
    {
      it, e := next, e + 1;
      forall j | 0 <= j < |path|
        ensures path[j].Valid() && path[j].s == s
      {
        assert old(path[j].Valid());
        assert path[j].Footprint() == old(path[j].Footprint());
      }
    }

    /** Once the current element is exhausted, move on to the next element's iterator, if any. */
    method Advance()
      requires Valid() && it != null && it.Remaining() == [] && ElementsValid(s, path)
      modifies this, set i | 0 <= i < |path| :: path[i]
      ensures Valid() && ElementsValid(s, path)
      ensures Remaining() == old(Remaining())
      ensures if it == null then e == old(e) else fresh(it) && e == old(e) + 1
    {
      if e < |path| {
        OpenNext();
      } else {
        it := null;
        assert Describes(path)[e..] == [];
        forall j | 0 <= j < |path|
          ensures path[j].Valid() && path[j].s == s
        {
          assert old(path[j].Valid());
          assert path[j].Footprint() == old(path[j].Footprint());
        }
      }
    }

    /**
     * next: ask the current iterator; when it is exhausted, move to the next
     * element's iterator, until a name comes or the elements run out.
     */
    method Next() returns (v: Option<Bytes>)
      requires Valid() && ElementsValid(s, path)
      modifies this, it, set i | 0 <= i < |path| :: path[i]
      ensures Valid() && ElementsValid(s, path)
      ensures it == null || it == old(it) || fresh(it)
      ensures old(Remaining()) == [] ==> v.None? && Remaining() == []
      ensures old(Remaining()) != [] ==> v == Some(old(Remaining())[0]) && Remaining() == old(Remaining())[1..]
    {
      ghost var before := Remaining();
      v := None;
      while it != null
        invariant Valid() && ElementsValid(s, path)
        invariant Remaining() == before && v.None?
        invariant it == null || it == old(it) || fresh(it)
        decreases |path| - e, if it == null then 0 else 1
      {
        v := NextInElement();
        if v.Some? {
          return;
        }
        Advance();
      }
      assert Describes(path)[e..] == [];
    }
  }

  // ---------------------------------------------------------------------
  // The finder

  class Finder {
    const s: System
    const path: seq<Element>
    /** the search path as given */
    const pathString: Bytes

    ghost predicate Valid()
      reads set i | 0 <= i < |path| :: path[i]
      reads set i, o | 0 <= i < |path| && o in path[i].Footprint() :: o
    {
      ElementsValid(s, path)
    }

    /** makeFinder: parse the path's tokens into elements. */
    constructor (s: System, pathString: Bytes, tokens: seq<Bytes>, bootLibrary: Option<Bytes>)
      ensures Valid() && this.s == s && this.pathString == pathString
      ensures forall i :: 0 <= i < |path| ==> fresh(path[i])
      ensures Describes(path) == Parse(s, tokens, bootLibrary)
    {
      var elements := ParsePath(s, tokens, bootLibrary);
      label parsed:
      this.s := s;
      this.pathString := pathString;
      path := elements;
      new;
      forall j | 0 <= j < |path|
        ensures path[j].Valid() && path[j].s == s
      {
        assert old@parsed(elements[j].Valid());
        assert elements[j].Footprint() == old@parsed(elements[j].Footprint());
      }
    }

    /** find: the first element's non-null answer, in path order. */
    method Find(n: Bytes) returns (r: Lookup)
      requires Valid()
      modifies set i | 0 <= i < |path| :: path[i]
      ensures Valid()
      ensures r == FirstFound(s, Describes(path), n)
    {
      var i := 0;
      assert Describes(path)[0..] == Describes(path);
      while i < |path|
        invariant i <= |path|
        invariant ElementsValid(s, path)
        invariant FirstFound(s, Describes(path)[i..], n) == FirstFound(s, Describes(path), n)
      {
        FirstFoundStep(s, Describes(path), i, n);
        r := FindAt(s, path, i, n);
        if r != Absent {
          return;
        }
        i := i + 1;
      }
      assert Describes(path)[i..] == [];
      r := Absent;
    }

    /** exists: whether some element says the name exists. */
    method Exists(n: Bytes) returns (r: bool)
      requires Valid()
      modifies set i | 0 <= i < |path| :: path[i]
      ensures Valid()
      ensures r == AnyExists(s, Describes(path), n)
    {
      var i := 0;
      assert Describes(path)[0..] == Describes(path);
      while i < |path|
        invariant i <= |path|
        invariant ElementsValid(s, path)
        invariant AnyExists(s, Describes(path)[i..], n) == AnyExists(s, Describes(path), n)
      {
        AnyExistsStep(s, Describes(path), i, n);
        r := ExistsAt(s, path, i, n);
        if r {
          return;
        }
        i := i + 1;
      }
      assert Describes(path)[i..] == [];
      r := false;
    }

    /** iterator: a MyIterator over the path. */
    method Iterator() returns (it: PathIterator)
      requires Valid()
      modifies set i | 0 <= i < |path| :: path[i]
      ensures Valid()
      ensures fresh(it) && it.Valid() && it.s == s && it.path == path
      ensures it.it == null || fresh(it.it)
      ensures it.Remaining() == AllNames(s, Describes(path))
    {
      it := new PathIterator(s, path);
    }
  }
}
