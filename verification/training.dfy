/** Training-set assembly: `process_image_file`, `process_directory` and the
    part of `train` that checks the two directories and builds the parallel
    `data` / `target` lists handed to the classifier's `fit`. ia.py and
    server.py carry identical copies of all three. */
module Training {
  import opened Wrappers
  import opened Features

  /** One regular file met by the directory walk. `Unreadable` is a file that
      `open` fails on; otherwise `decoded` is what the image codec made of its
      bytes, `None` when the codec raised `IOError`. */
  datatype ImageFile = Unreadable | Readable(decoded: Option<Image>)

  /** What `process_image_file` yields for one decoded (or undecodable) image;
      `process_recv_image` in server.py is the same on received bytes. */
  function ProcessDecoded(decoded: Option<Image>): (r: Result<Option<Vec>, Fault>)
    ensures r.Success? && r.value.None? <==> decoded.None? || decoded.value.mode != RGB
    ensures r.Failure? <==> decoded.Some? && decoded.value.mode == RGB && |decoded.value.pixels| == 0
    ensures r.Failure? ==> r.error == ZeroDivision
    ensures r.Success? && r.value.Some? ==>
              decoded.Some? && IsHistogramOf(r.value.value, decoded.value.pixels, DEFAULT_BLOCKS)
  {
    match decoded
    case None => Success(None)
    case Some(img) => ProcessImage(img, DEFAULT_BLOCKS)
  }

  /** `process_image_file(path)`: reading the file is outside the `try`, so a
      read failure escapes; a decoding failure is caught and yields `None`. */
  function ProcessImageFile(f: ImageFile): (r: Result<Option<Vec>, Fault>)
    ensures r == Failure(ReadFailed) <==> f.Unreadable?
    ensures r == Failure(ZeroDivision) <==>
              f.Readable? && f.decoded.Some? && f.decoded.value.mode == RGB && |f.decoded.value.pixels| == 0
    ensures r.Success? && r.value.None? <==>
              f.Readable? && (f.decoded.None? || f.decoded.value.mode != RGB)
    ensures r.Success? && r.value.Some? ==>
              f.Readable? && f.decoded.Some? &&
              IsHistogramOf(r.value.value, f.decoded.value.pixels, DEFAULT_BLOCKS)
  {
    match f
    case Unreadable => Failure(ReadFailed)
    case Readable(decoded) => ProcessDecoded(decoded)
  }

  /** Python's `if img_feature:`: the value is not `None` and not an empty list. */
  predicate Truthy(o: Option<Vec>) {
    o.Some? && |o.value| > 0
  }

  /** For anything the extractor returns, truthiness is exactly "not None":
      a feature vector is never empty. */
  lemma TruthyIsSome(f: ImageFile)
    requires ProcessImageFile(f).Success?
    ensures Truthy(ProcessImageFile(f).value) <==> ProcessImageFile(f).value.Some?
  {
  }

  /** No file of the walk makes `process_image_file` raise. */
  ghost predicate NoFault(files: seq<ImageFile>) {
    forall i :: 0 <= i < |files| ==> ProcessImageFile(files[i]).Success?
  }

  /** File `i` of the walk yields the feature vector `v`. */
  ghost predicate Yields(files: seq<ImageFile>, i: int, v: Vec) {
    0 <= i < |files| && ProcessImageFile(files[i]) == Success(Some(v))
  }

  /** `process_directory(directory)` over the files of the walk, in walk order:
      keeps the truthy results, drops the `None`s, and lets the first
      exception raised by a file escape. */
  function ProcessDirectory(files: seq<ImageFile>): (r: Result<seq<Vec>, Fault>)
    ensures r.Success? <==> NoFault(files)
    ensures r.Success? ==> |r.value| <= |files|
    ensures r.Success? ==> forall v :: v in r.value ==> IsFeatureVector(v, DEFAULT_BLOCKS)
    decreases |files|
  {
    if |files| == 0 then Success([])
    else
      var rest := ProcessDirectory(files[1..]);
      assert NoFault(files) <==> ProcessImageFile(files[0]).Success? && NoFault(files[1..]) by {
        assert forall i :: 1 <= i < |files| ==> files[1..][i - 1] == files[i];
      }
      match ProcessImageFile(files[0])
      case Failure(e) => Failure(e)
      case Success(o) =>
        match rest
        case Failure(e) => Failure(e)
        case Success(kept) =>
          if Truthy(o) then Success([o.value] + kept) else Success(kept)
  }

  /** When the walk raises, it is the first failing file's exception that
      escapes. */
  lemma {:induction false} ProcessDirectoryFirstFault(files: seq<ImageFile>)
    requires !NoFault(files)
    ensures exists i :: (0 <= i < |files| &&
      ProcessImageFile(files[i]) == Failure(ProcessDirectory(files).error) &&
      forall j :: 0 <= j < i ==> ProcessImageFile(files[j]).Success?)
    decreases |files|
  {
    assert forall i :: 1 <= i < |files| ==> files[1..][i - 1] == files[i];
    if ProcessImageFile(files[0]).Success? {
      ProcessDirectoryFirstFault(files[1..]);
      var i :| 0 <= i < |files[1..]| &&
        ProcessImageFile(files[1..][i]) == Failure(ProcessDirectory(files[1..]).error) &&
        forall j :: 0 <= j < i ==> ProcessImageFile(files[1..][j]).Success?;
      assert ProcessImageFile(files[i + 1]) == Failure(ProcessDirectory(files).error);
    } else {
      assert ProcessImageFile(files[0]) == Failure(ProcessDirectory(files).error);
    }
  }

  /** A vector is kept exactly when some file of the walk yields it. */
  lemma {:induction false} ProcessDirectoryMembers(files: seq<ImageFile>, v: Vec)
    requires NoFault(files)
    ensures v in ProcessDirectory(files).value <==> exists i :: Yields(files, i, v)
    decreases |files|
  {
    if |files| > 0 {
      var tail := files[1..];
      assert forall i :: 1 <= i < |files| ==> tail[i - 1] == files[i];
      assert NoFault(tail);
      ProcessDirectoryMembers(tail, v);
      var o := ProcessImageFile(files[0]).value;
      TruthyIsSome(files[0]);
      var head := if o.Some? then [o.value] else [];
      assert ProcessDirectory(files).value == head + ProcessDirectory(tail).value;
      assert v in head <==> Yields(files, 0, v);
      if exists i :: Yields(tail, i, v) {
        var i :| Yields(tail, i, v);
        assert Yields(files, i + 1, v);
      }
      if exists i :: Yields(files, i, v) {
        var i :| Yields(files, i, v);
        if i > 0 {
          assert Yields(tail, i - 1, v);
        }
      }
    }
  }

  /** The walk can be split anywhere: the features of a concatenated walk are
      the features of the first part followed by those of the second, so the
      order of the walk is kept. */
  lemma {:induction false} ProcessDirectoryAppend(f1: seq<ImageFile>, f2: seq<ImageFile>)
    requires NoFault(f1) && NoFault(f2)
    ensures NoFault(f1 + f2)
    ensures ProcessDirectory(f1 + f2).value == ProcessDirectory(f1).value + ProcessDirectory(f2).value
    decreases |f1|
  {
    var all := f1 + f2;
    if |f1| > 0 {
      var tail := f1[1..];
      assert all[0] == f1[0];
      assert all[1..] == tail + f2;
      assert NoFault(tail) by {
        assert forall i :: 1 <= i < |f1| ==> tail[i - 1] == f1[i];
      }
      ProcessDirectoryAppend(tail, f2);
      assert NoFault(all) by {
        assert forall i :: 1 <= i < |all| ==> all[1..][i - 1] == all[i];
      }
      var o := ProcessImageFile(f1[0]).value;
      var head := if Truthy(o) then [o.value] else [];
      assert ProcessDirectory(all).value == head + ProcessDirectory(all[1..]).value;
      assert ProcessDirectory(f1).value == head + ProcessDirectory(tail).value;
    } else {
      assert all == f2;
    }
  }

  /** A walk in which every file decodes to a non-empty RGB image keeps every
      file: nothing is dropped and nothing is reordered. */
  lemma {:induction false} ProcessDirectoryKeepsAll(files: seq<ImageFile>)
    requires forall i :: 0 <= i < |files| ==>
      ProcessImageFile(files[i]).Success? && ProcessImageFile(files[i]).value.Some?
    ensures ProcessDirectory(files).Success?
    ensures |ProcessDirectory(files).value| == |files|
    ensures forall i :: 0 <= i < |files| ==>
              ProcessDirectory(files).value[i] == ProcessImageFile(files[i]).value.value
    decreases |files|
  {
    if |files| > 0 {
      var tail := files[1..];
      assert forall i :: 1 <= i < |files| ==> tail[i - 1] == files[i];
      ProcessDirectoryKeepsAll(tail);
      var o := ProcessImageFile(files[0]).value;
      TruthyIsSome(files[0]);
      assert Truthy(o);
      var kept := ProcessDirectory(tail).value;
      var all := [o.value] + kept;
      assert ProcessDirectory(files) == Success(all);
      forall i | 1 <= i < |files|
        ensures all[i] == ProcessImageFile(files[i]).value.value
      {
        assert all[i] == kept[i - 1];
        assert tail[i - 1] == files[i];
      }
    }
  }

  /** The arguments of `fit(data, target)`. */
  datatype TrainingSet = TrainingSet(data: seq<Vec>, target: seq<int>)

  /** `[0] * na + [1] * nb`. */
  function Labels(na: nat, nb: nat): (t: seq<int>)
    ensures |t| == na + nb
    ensures forall i :: 0 <= i < |t| ==> (t[i] == 0 <==> i < na)
    ensures forall i :: 0 <= i < |t| ==> (t[i] == 1 <==> na <= i)
  {
    seq(na, _ => 0) + seq(nb, _ => 1)
  }

  /** `data = training_a + training_b` with the parallel `target`: class A is
      labelled 0 and class B is labelled 1, each sample keeping its position. */
  function Assemble(a: seq<Vec>, b: seq<Vec>): (s: TrainingSet)
    ensures |s.data| == |s.target| == |a| + |b|
    ensures forall i :: 0 <= i < |a| ==> s.data[i] == a[i] && s.target[i] == 0
    ensures forall i :: 0 <= i < |b| ==> s.data[|a| + i] == b[i] && s.target[|a| + i] == 1
    ensures multiset(s.target)[0] == |a| && multiset(s.target)[1] == |b|
  {
    var t := Labels(|a|, |b|);
    assert t == seq(|a|, _ => 0) + seq(|b|, _ => 1);
    MultisetOfConstant(|a|, 0);
    MultisetOfConstant(|b|, 1);
    TrainingSet(a + b, t)
  }

  lemma {:induction false} MultisetOfConstant(n: nat, x: int)
    ensures multiset(seq(n, _ => x)) == multiset{}[x := n]
  {
    if n > 0 {
      assert seq(n, _ => x) == seq(n - 1, _ => x) + [x];
      MultisetOfConstant(n - 1, x);
    } else {
      assert seq(n, _ => x) == [];
    }
  }

  /** Why training did not reach `fit`. */
  datatype TrainError =
    | NotADirectory(path: string)   // the `IOError` raised by the `isdir` checks
    | Raised(fault: Fault)          // an exception escaping `process_directory`

  /** `train(training_path_a, training_path_b)` up to the call of `fit`: the
      two `isdir` checks come first, then both walks, then the training set.
      `isDirA`/`isDirB` are the answers of `os.path.isdir`, `filesA`/`filesB`
      the two walks. */
  function Train(pathA: string, isDirA: bool, filesA: seq<ImageFile>,
                 pathB: string, isDirB: bool, filesB: seq<ImageFile>): (r: Result<TrainingSet, TrainError>)
    ensures !isDirA ==> r == Failure(NotADirectory(pathA))
    ensures isDirA && !isDirB ==> r == Failure(NotADirectory(pathB))
    ensures r.Success? <==> isDirA && isDirB && NoFault(filesA) && NoFault(filesB)
    ensures isDirA && isDirB && !NoFault(filesA) ==>
              r == Failure(Raised(ProcessDirectory(filesA).error))
    ensures isDirA && isDirB && NoFault(filesA) && !NoFault(filesB) ==>
              r == Failure(Raised(ProcessDirectory(filesB).error))
    ensures r.Success? ==>
      && r.value.data == ProcessDirectory(filesA).value + ProcessDirectory(filesB).value
      && |r.value.target| == |r.value.data|
      && (forall i :: 0 <= i < |r.value.target| ==>
           (r.value.target[i] == 0 <==> i < |ProcessDirectory(filesA).value|))
      && (forall i :: 0 <= i < |r.value.target| ==>
           (r.value.target[i] == 1 <==> |ProcessDirectory(filesA).value| <= i))
  {
    if !isDirA then Failure(NotADirectory(pathA))
    else if !isDirB then Failure(NotADirectory(pathB))
    else
      match ProcessDirectory(filesA)
      case Failure(e) => Failure(Raised(e))
      case Success(a) =>
        match ProcessDirectory(filesB)
        case Failure(e) => Failure(Raised(e))
        case Success(b) => Success(Assemble(a, b))
  }
}
