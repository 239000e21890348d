/** Building the list of PDF files to rename from the command-line input:
    a single file, the PDFs directly inside a directory, or every PDF below
    it. The directory listings are inputs: the names `glob` sees in the
    input directory, and the `(dirpath, filenames)` pairs `os.walk` yields,
    in its order. */
module WorkList {
  import opened Text

  const PDF: string := ".pdf"

  /** One step of `os.walk`: a directory and the files directly in it (the
      sub-directory names it also yields are not used). */
  datatype WalkStep = WalkStep(dirpath: string, filenames: seq<string>)

  /** `"%s/%s" % (dir, name)`. */
  function PathJoin(dir: string, name: string): string {
    dir + "/" + name
  }

  /** `os.path.basename(path)`: what follows the last "/". */
  function Basename(path: string): (name: string)
    ensures '/' !in name
    ensures EndsWith(path, name)
    ensures |name| < |path| ==> path[|path| - |name| - 1] == '/'
    decreases |path|
  {
    if path == [] || path[|path| - 1] == '/' then []
    else
      var front := path[..|path| - 1];
      var name := Basename(front) + [path[|path| - 1]];
      assert path[|path| - |name|..] == front[|front| - |Basename(front)|..] + [path[|path| - 1]];
      name
  }

  /** Whether `glob`'s pattern `*.pdf` matches a name: it must end in
      ".pdf", and `*` does not match a leading dot. */
  predicate GlobMatches(name: string) {
    EndsWith(name, PDF) && !StartsWith(name, ".")
  }

  /** `glob.glob` of the input directory joined with the pattern `*.pdf`,
      over the names in that directory. */
  function GlobPdfs(input: string, names: seq<string>): (paths: seq<string>)
    ensures |paths| <= |names|
    ensures forall p :: p in paths <==> exists n :: n in names && GlobMatches(n) && p == PathJoin(input, n)
    decreases |names|
  {
    if names == [] then []
    else
      var rest := GlobPdfs(input, names[..|names| - 1]);
      var last := names[|names| - 1];
      assert names == names[..|names| - 1] + [last];
      if GlobMatches(last) then rest + [PathJoin(input, last)] else rest
  }

  /** The paths the inner loop appends for one walk step: its PDF files, in
      the listing's order. */
  function StepPdfs(dirpath: string, names: seq<string>): seq<string>
    decreases |names|
  {
    if names == [] then []
    else
      var rest := StepPdfs(dirpath, names[..|names| - 1]);
      var last := names[|names| - 1];
      if EndsWith(last, PDF) then rest + [PathJoin(dirpath, last)] else rest
  }

  /** Everything the nested loops append, walk step after walk step. */
  function Walked(walk: seq<WalkStep>): seq<string>
    decreases |walk|
  {
    if walk == [] then []
    else Walked(walk[..|walk| - 1]) + StepPdfs(walk[|walk| - 1].dirpath, walk[|walk| - 1].filenames)
  }

  /** The files of one step that are collected: exactly those ending in
      ".pdf", each joined to the step's directory. */
  lemma {:induction false} StepPdfsMembers(dirpath: string, names: seq<string>, p: string)
    ensures p in StepPdfs(dirpath, names) <==>
            exists j :: 0 <= j < |names| && EndsWith(names[j], PDF) && p == PathJoin(dirpath, names[j])
    decreases |names|
  {
    if names != [] {
      var init := names[..|names| - 1];
      StepPdfsMembers(dirpath, init, p);
      assert forall j :: 0 <= j < |init| ==> names[j] == init[j];
    }
  }

  /** Recursive mode collects every file below the input that ends in
      ".pdf", as its directory path, "/" and its name, and nothing else. */
  lemma {:induction false} WalkedMembers(walk: seq<WalkStep>, p: string)
    ensures p in Walked(walk) <==>
            exists i, j :: 0 <= i < |walk| && 0 <= j < |walk[i].filenames| &&
                           EndsWith(walk[i].filenames[j], PDF) &&
                           p == PathJoin(walk[i].dirpath, walk[i].filenames[j])
    decreases |walk|
  {
    if walk != [] {
      var init := walk[..|walk| - 1];
      var last := walk[|walk| - 1];
      WalkedMembers(init, p);
      StepPdfsMembers(last.dirpath, last.filenames, p);
      if p in Walked(walk) {
        if p in Walked(init) {
          var i, j :| 0 <= i < |init| && 0 <= j < |init[i].filenames| &&
                      EndsWith(init[i].filenames[j], PDF) && p == PathJoin(init[i].dirpath, init[i].filenames[j]);
          assert walk[i] == init[i];
        } else {
          var j :| 0 <= j < |last.filenames| && EndsWith(last.filenames[j], PDF) &&
                   p == PathJoin(last.dirpath, last.filenames[j]);
          assert walk[|walk| - 1] == last;
        }
      }
      if exists i, j :: 0 <= i < |walk| && 0 <= j < |walk[i].filenames| &&
                        EndsWith(walk[i].filenames[j], PDF) && p == PathJoin(walk[i].dirpath, walk[i].filenames[j]) {
        var i, j :| 0 <= i < |walk| && 0 <= j < |walk[i].filenames| &&
                    EndsWith(walk[i].filenames[j], PDF) && p == PathJoin(walk[i].dirpath, walk[i].filenames[j]);
        if i < |init| {
          assert walk[i] == init[i];
        }
      }
    }
  }

  /** The work list: the input itself when it names a PDF; otherwise the
      PDFs `glob` finds directly in it; in recursive mode, those `os.walk`
      finds below it, appended one by one. */
  method CollectPdfs(input: string, recursive: bool, names: seq<string>, walk: seq<WalkStep>)
    returns (pdfs: seq<string>)
    ensures EndsWith(input, PDF) ==> pdfs == [input]
    ensures !EndsWith(input, PDF) && !recursive ==> pdfs == GlobPdfs(input, names)
    ensures !EndsWith(input, PDF) && recursive ==> pdfs == Walked(walk)
  {
    if EndsWith(input, PDF) {
      pdfs := [input];
    } else if !recursive {
      pdfs := GlobPdfs(input, names);
    } else {
      pdfs := [];
      var i := 0;
      while i < |walk|
        invariant 0 <= i <= |walk|
        invariant pdfs == Walked(walk[..i])
      {
        var step := walk[i];
        var j := 0;
        while j < |step.filenames|
          invariant 0 <= j <= |step.filenames|
          invariant pdfs == Walked(walk[..i]) + StepPdfs(step.dirpath, step.filenames[..j])
        {
          var name := step.filenames[j];
          if EndsWith(name, PDF) {
            pdfs := pdfs + [PathJoin(step.dirpath, name)];
          }
          assert step.filenames[..j + 1][..j] == step.filenames[..j];
          j := j + 1;
        }
        assert step.filenames[..j] == step.filenames;
        assert walk[..i + 1][..i] == walk[..i];
        i := i + 1;
      }
      assert walk[..i] == walk;
    }
  }
}
