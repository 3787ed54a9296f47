/**
 * The disk as the downloader and the handlers see it: a map from path to
 * file contents. Directories are not represented; a directory exists as the
 * common prefix of the resolved paths below it.
 */
module Files {
  import opened Wrappers
  import opened Text

  type FileSystem = map<string, seq<byte>>

  /** os.PathSeparator on the platforms the service runs on. */
  const Sep: char := '/'

  /** `a + string(os.PathSeparator) + b` */
  function JoinPath(a: string, b: string): string
  {
    a + [Sep] + b
  }

  /** The name of the temporary file of chunk `i`: `fmt.Sprintf("%s.part%d", path, i)`. */
  function PartName(path: string, i: nat): (r: string)
    ensures |r| > |path| && r[..|path|] == path
  {
    path + ".part" + NatToString(i)
  }

  /** Two chunks never share a temporary file. */
  lemma PartNameInjective(path: string, i: nat, j: nat)
    requires PartName(path, i) == PartName(path, j)
    ensures i == j
  {
    assert path + ".part" + NatToString(i) == (path + ".part") + NatToString(i);
    assert path + ".part" + NatToString(j) == (path + ".part") + NatToString(j);
    CancelPrefix(path + ".part", NatToString(i), NatToString(j));
    NatToStringInjective(i, j);
  }

  /** A temporary file is never the destination file itself. */
  lemma PartNameNotPath(path: string, i: nat)
    ensures PartName(path, i) != path
  {
  }

  /** The pieces that are not empty, in order. */
  function NonEmpty(ps: seq<string>): seq<string>
  {
    if ps == [] then []
    else NonEmpty(ps[..|ps| - 1]) + if ps[|ps| - 1] == "" then [] else [ps[|ps| - 1]]
  }

  /** Dropping empty pieces distributes over concatenation. */
  lemma {:induction false} NonEmptyAppend(xs: seq<string>, ys: seq<string>)
    ensures NonEmpty(xs + ys) == NonEmpty(xs) + NonEmpty(ys)
  {
    if ys == [] {
      assert xs + ys == xs;
    } else {
      var zs := xs + ys;
      assert zs[..|zs| - 1] == xs + ys[..|ys| - 1];
      assert zs[|zs| - 1] == ys[|ys| - 1];
      NonEmptyAppend(xs, ys[..|ys| - 1]);
    }
  }

  /** An empty piece is dropped. */
  lemma NonEmptyEmptyPiece()
    ensures NonEmpty([""]) == []
  {
    assert [""][..0] == [];
  }

  /**
   * The names the system resolves a path to: the pieces between separators,
   * without the empty pieces a doubled or trailing separator leaves, led by
   * `[Sep]` when the path is absolute.
   */
  function Components(p: string): seq<string>
  {
    (if |p| > 0 && p[0] == Sep then [[Sep]] else []) + NonEmpty(Split(p, Sep))
  }

  /**
   * `p` names `dir` or something below it, once both are resolved.
   * `os.RemoveAll("")` removes nothing, so no path is under `""`.
   */
  predicate Under(p: string, dir: string)
  {
    dir != "" && var d := Components(dir); var c := Components(p); |d| <= |c| && c[..|d|] == d
  }

  /** A path joined by one separator splits into the pieces of both sides. */
  lemma SplitJoinedOnce(a: string, b: string)
    ensures Split(a + [Sep] + b, Sep) == Split(a, Sep) + Split(b, Sep)
  {
    assert a + [Sep] + b == a + ([Sep] + b);
    SplitAt(a, b, Sep);
  }

  /** A path joined by two separators has an empty piece between the two sides. */
  lemma SplitJoinedTwice(a: string, b: string)
    ensures Split(a + [Sep, Sep] + b, Sep) == Split(a, Sep) + ([""] + Split(b, Sep))
  {
    var c := [Sep] + b;
    assert a + [Sep, Sep] + b == a + ([Sep] + c);
    SplitAt(a, c, Sep);
    assert [] + ([Sep] + b) == c;
    SplitAt([], b, Sep);
    assert Split(c, Sep) == [""] + Split(b, Sep);
  }

  /** A doubled separator resolves like a single one. */
  lemma DoubledSeparator(a: string, b: string)
    ensures Components(a + [Sep, Sep] + b) == Components(a + [Sep] + b)
  {
    var x, y := a + [Sep, Sep] + b, a + [Sep] + b;
    SplitJoinedOnce(a, b);
    SplitJoinedTwice(a, b);
    var pa, pb := Split(a, Sep), Split(b, Sep);
    NonEmptyAppend([""], pb);
    NonEmptyEmptyPiece();
    assert NonEmpty([""] + pb) == NonEmpty(pb);
    NonEmptyAppend(pa, [""] + pb);
    NonEmptyAppend(pa, pb);
    assert NonEmpty(Split(x, Sep)) == NonEmpty(pa) + NonEmpty(pb) == NonEmpty(Split(y, Sep));
    assert x[0] == y[0];
  }

  /** A trailing separator is ignored: `dir + "/"` names what `dir` names. */
  lemma TrailingSeparator(dir: string)
    requires dir != ""
    ensures Components(dir + [Sep]) == Components(dir)
  {
    var x := dir + [Sep];
    assert x == dir + ([Sep] + []);
    SplitAt(dir, [], Sep);
    assert Split(x, Sep) == Split(dir, Sep) + [""];
    NonEmptyAppend(Split(dir, Sep), [""]);
    NonEmptyEmptyPiece();
    assert NonEmpty(Split(x, Sep)) == NonEmpty(Split(dir, Sep));
    assert x[0] == dir[0];
  }

  /** os.RemoveAll(dir): `dir` and everything below it, as the system resolves them, disappear; nothing else changes. */
  function RemoveAll(fs: FileSystem, dir: string): (r: FileSystem)
    ensures forall p :: p in r <==> p in fs && !Under(p, dir)
    ensures forall p :: p in r ==> r[p] == fs[p]
  {
    map p | p in fs && !Under(p, dir) :: fs[p]
  }
}
