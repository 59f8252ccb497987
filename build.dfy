/**
 * The `build` command of cmd/bom/build.go: resolve each component of the manifest,
 * in declared order, to its body and concatenate `body + "\n"` for each; abort on the
 * first body that cannot be read; write the result to the output file or to
 * standard output only once the whole loop has succeeded.
 *
 * Reading `examples/components/<id>.md` is a lookup in a `Store` from ID to body (a
 * missing ID is a failed read); the file system and standard output are a `Sink`.
 * Bodies are Go strings, that is byte strings; here each char stands for a byte.
 */
module Build {
  import opened Wrappers

  type Store = map<string, string>

  /** The file a component's body is read from. */
  function ComponentPath(id: string): string {
    "examples/components/" + id + ".md"
  }

  datatype BuildError =
    | ComponentReadFailed(path: string)
    | OutputWriteFailed(path: string)

  /** One component's share of the artifact: its body and a newline. */
  function Entry(body: string): string {
    body + "\n"
  }

  /**
   * The artifact for `ids`: the entries of their bodies in order, or the read error
   * for the first ID that has no body.
   */
  function Assemble(ids: seq<string>, store: Store): Result<string, BuildError>
  {
    if ids == [] then Ok("")
    else if ids[0] !in store then Err(ComponentReadFailed(ComponentPath(ids[0])))
    else match Assemble(ids[1..], store)
      case Ok(rest) => Ok(Entry(store[ids[0]]) + rest)
      case Err(e) => Err(e)
  }

  /** The artifact's size: each resolved body plus its newline. */
  function TotalSize(ids: seq<string>, store: Store): nat
    requires forall k :: 0 <= k < |ids| ==> ids[k] in store
  {
    if ids == [] then 0 else |store[ids[0]]| + 1 + TotalSize(ids[1..], store)
  }

  /**
   * Assembling a concatenation: the first list's error if it has one, otherwise the
   * second list's error, otherwise the two artifacts one after the other.
   */
  lemma {:induction false} AssembleAppend(xs: seq<string>, ys: seq<string>, store: Store)
    ensures Assemble(xs + ys, store) ==
      match Assemble(xs, store)
      case Err(e) => Err(e)
      case Ok(a) =>
        match Assemble(ys, store)
        case Err(e) => Err(e)
        case Ok(b) => Ok(a + b)
  {
    if xs == [] {
      assert xs + ys == ys;
      if Assemble(ys, store).Ok? {
        assert "" + Assemble(ys, store).value == Assemble(ys, store).value;
      }
    } else {
      assert (xs + ys)[0] == xs[0] && (xs + ys)[1..] == xs[1..] + ys;
      AssembleAppend(xs[1..], ys, store);
      match Assemble(xs[1..], store)
      case Err(e) =>
      case Ok(a) =>
        match Assemble(ys, store)
        case Err(e) =>
        case Ok(b) =>
          if xs[0] in store {
            assert Entry(store[xs[0]]) + (a + b) == (Entry(store[xs[0]]) + a) + b;
          }
    }
  }

  /** Assembly succeeds exactly when every ID of the manifest has a body. */
  lemma {:induction false} AssembleSucceedsIffAllResolve(ids: seq<string>, store: Store)
    ensures Assemble(ids, store).Ok? <==> forall k :: 0 <= k < |ids| ==> ids[k] in store
  {
    if ids != [] {
      AssembleSucceedsIffAllResolve(ids[1..], store);
      assert forall k :: 1 <= k < |ids| ==> ids[k] == ids[1..][k - 1];
    }
  }

  /**
   * When the k-th ID is the first without a body, assembly fails naming that ID's
   * file, and whatever follows it in the manifest makes no difference.
   */
  lemma {:induction false} AssembleFailsAtFirstMissing(ids: seq<string>, k: nat, later: seq<string>, store: Store)
    requires k < |ids| && ids[k] !in store
    requires forall j :: 0 <= j < k ==> ids[j] in store
    ensures Assemble(ids, store) == Err(ComponentReadFailed(ComponentPath(ids[k])))
    ensures Assemble(ids[..k + 1] + later, store) == Assemble(ids, store)
  {
    var xs := ids[..k + 1] + later;
    if k > 0 {
      AssembleFailsAtFirstMissing(ids[1..], k - 1, later, store);
      assert ids[1..][k - 1] == ids[k];
      assert xs[0] == ids[0] && xs[1..] == ids[1..][..k] + later;
    } else {
      assert xs[0] == ids[0];
    }
  }

  /** A successful artifact is as long as all bodies plus one newline each. */
  lemma {:induction false} AssembleLength(ids: seq<string>, store: Store)
    requires Assemble(ids, store).Ok?
    ensures forall k :: 0 <= k < |ids| ==> ids[k] in store
    ensures |Assemble(ids, store).value| == TotalSize(ids, store)
  {
    AssembleSucceedsIffAllResolve(ids, store);
    if ids != [] {
      AssembleLength(ids[1..], store);
    }
  }

  /**
   * In a successful artifact the k-th component's body starts where the entries of
   * the components before it end and is followed by a newline: components keep their
   * manifest order and a repeated ID contributes its body once per occurrence.
   */
  lemma {:induction false} AssemblePlacesEachEntry(ids: seq<string>, k: nat, store: Store)
    requires forall j :: 0 <= j < |ids| ==> ids[j] in store
    requires k < |ids|
    ensures Assemble(ids, store).Ok?
    ensures var text, off, body := Assemble(ids, store).value, TotalSize(ids[..k], store), store[ids[k]];
      && off + |body| < |text|
      && text[off..off + |body|] == body
      && text[off + |body|] == '\n'
  {
    AssembleSucceedsIffAllResolve(ids, store);
    var text := Assemble(ids, store).value;
    var b0 := store[ids[0]];
    AssembleSucceedsIffAllResolve(ids[1..], store);
    var rest := Assemble(ids[1..], store).value;
    assert text == b0 + "\n" + rest;
    if k > 0 {
      AssemblePlacesEachEntry(ids[1..], k - 1, store);
      assert ids[..k][0] == ids[0] && ids[..k][1..] == ids[1..][..k - 1];
      assert ids[1..][k - 1] == ids[k];
      var off' := TotalSize(ids[1..][..k - 1], store);
      assert TotalSize(ids[..k], store) == |b0| + 1 + off';
      var body := store[ids[k]];
      assert text[|b0| + 1 + off'..|b0| + 1 + off' + |body|] == rest[off'..off' + |body|];
    }
  }

  /**
   * The manifests of the build command's test, with short bodies: "X\n" for A and
   * "Y\n" for C give "X\n\nY\n\n"; a manifest that names D, which has no body,
   * fails naming D's file.
   */
  lemma ExampleManifests()
    ensures Assemble(["A", "C"], map["A" := "X\n", "C" := "Y\n"]) == Ok("X\n\nY\n\n")
    ensures Assemble(["A", "D"], map["A" := "X\n", "C" := "Y\n"])
      == Err(ComponentReadFailed("examples/components/D.md"))
    ensures Assemble(["A", "A"], map["A" := "X\n", "C" := "Y\n"]) == Ok("X\n\nX\n\n")
    ensures Assemble([], map["A" := "X\n", "C" := "Y\n"]) == Ok("")
  {
    var store := map["A" := "X\n", "C" := "Y\n"];
    assert ["A", "C"][1..] == ["C"] && ["A", "D"][1..] == ["D"] && ["A", "A"][1..] == ["A"];
    assert ["C"][1..] == [] && ["D"][1..] == [] && ["A"][1..] == [];
    assert ComponentPath("D") == "examples/components/D.md";
    assert Entry("Y\n") + "" == "Y\n\n" && Entry("X\n") + "" == "X\n\n";
    assert Assemble(["C"], store) == Ok("Y\n\n");
    assert Assemble(["A"], store) == Ok("X\n\n");
    assert Entry("X\n") + "Y\n\n" == "X\n\nY\n\n";
    assert Entry("X\n") + "X\n\n" == "X\n\nX\n\n";
  }

  /**
   * The output side: files written so far, what went to standard output, and the
   * paths a write fails on (a read-only location, a missing directory).
   */
  class Sink {
    var files: map<string, string>
    var stdout: string
    const unwritable: set<string>

    constructor (files: map<string, string>, unwritable: set<string>)
      ensures this.files == files && stdout == "" && this.unwritable == unwritable
    {
      this.files := files;
      this.stdout := "";
      this.unwritable := unwritable;
    }

    /** os.WriteFile: replaces the file's contents, or fails leaving everything as it was. */
    method WriteFile(path: string, data: string) returns (ok: bool)
      modifies this
      ensures ok == (path !in unwritable)
      ensures files == if ok then old(files)[path := data] else old(files)
      ensures stdout == old(stdout)
    {
      ok := path !in unwritable;
      if ok {
        files := files[path := data];
      }
    }

    /** fmt.Print. */
    method Print(s: string)
      modifies this
      ensures stdout == old(stdout) + s && files == old(files)
    {
      stdout := stdout + s;
    }
  }

  /** The confirmation printed after the artifact has been written to `output`. */
  function Written(output: string): string {
    output + " に結合結果を出力しました。\n"
  }

  /**
   * The body of the build command once the manifest is loaded. It reads bodies in
   * manifest order (`consulted` lists the IDs it looked up) and stops at the first
   * that is missing, having written nothing. Otherwise it writes exactly the
   * artifact Assemble describes to `output`, or prints it when `output` is empty.
   */
  method RunBuild(ids: seq<string>, store: Store, output: string, sink: Sink)
    returns (err: Option<BuildError>, ghost consulted: seq<string>)
    modifies sink
    ensures consulted <= ids
    ensures forall j :: 0 <= j < |consulted| - 1 ==> consulted[j] in store
    ensures Assemble(ids, store).Ok? ==> consulted == ids
    ensures Assemble(ids, store).Err? ==>
      && consulted != [] && consulted[|consulted| - 1] !in store
      && err == Some(Assemble(ids, store).error)
      && sink.files == old(sink.files) && sink.stdout == old(sink.stdout)
    ensures Assemble(ids, store).Ok? && output == "" ==>
      && err == None
      && sink.files == old(sink.files)
      && sink.stdout == old(sink.stdout) + Assemble(ids, store).value
    ensures Assemble(ids, store).Ok? && output != "" && output in sink.unwritable ==>
      && err == Some(OutputWriteFailed(output))
      && sink.files == old(sink.files) && sink.stdout == old(sink.stdout)
    ensures Assemble(ids, store).Ok? && output != "" && output !in sink.unwritable ==>
      && err == None
      && sink.files == old(sink.files)[output := Assemble(ids, store).value]
      && sink.stdout == old(sink.stdout) + Written(output)
  {
    var result := "";
    consulted := [];
    for i := 0 to |ids|
      invariant consulted == ids[..i]
      invariant forall j :: 0 <= j < i ==> ids[j] in store
      invariant Assemble(ids[..i], store) == Ok(result)
      invariant sink.files == old(sink.files) && sink.stdout == old(sink.stdout)
    {
      var id := ids[i];
      consulted := consulted + [id];
      if id !in store {
        AssembleFailsAtFirstMissing(ids, i, [], store);
        return Some(ComponentReadFailed(ComponentPath(id))), consulted;
      }
      assert ids[..i + 1] == ids[..i] + [id];
      AssembleAppend(ids[..i], [id], store);
      assert [id][1..] == [];
      assert Assemble([id], store) == Ok(Entry(store[id]) + "");
      assert result + (Entry(store[id]) + "") == result + store[id] + "\n";
      result := result + store[id] + "\n";
    }
    assert ids[..|ids|] == ids;
    if output != "" {
      var ok := sink.WriteFile(output, result);
      if !ok {
        return Some(OutputWriteFailed(output)), consulted;
      }
      sink.Print(Written(output));
    } else {
      sink.Print(result);
    }
    err := None;
  }
}
