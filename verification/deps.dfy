/** The dependencies of a package, as `get_package_dependencies` reads them
    from the output of `pip freeze` (scripts/update_formulas.py:88-98).
    Creating the virtual environment and running pip are not modelled: the
    captured standard output is passed in, or `None` when one of the three
    subprocess steps failed (the function then returns an empty list). */
module Deps {
  import opened Wrappers
  import opened Text

  /** A `(dep_name, dep_version)` pair. */
  datatype Dep = Dep(name: string, version: string)

  /** The `ValueError` raised by `dep_name, dep_version = line.split("==")`
      when the line does not split into exactly two parts. */
  datatype FreezeError = UnpackError(line: string)

  /** `name.lower().replace("-", "_")` */
  function Normalize(name: string): string {
    ReplaceChar(Lower(name), '-', '_')
  }

  /** The name is pip, setuptools, wheel or the package itself, up to case and `-`/`_`. */
  predicate Skipped(name: string, package: string) {
    Normalize(name) in {"pip", "setuptools", "wheel", Normalize(package)}
  }

  /** The line pip freeze prints for a pinned dependency. */
  function FreezeLine(d: Dep): string {
    d.name + "==" + d.version
  }

  function FreezeLines(ds: seq<Dep>): (r: seq<string>)
    ensures |r| == |ds| && forall k :: 0 <= k < |ds| ==> r[k] == FreezeLine(ds[k])
  {
    seq(|ds|, k requires 0 <= k < |ds| => FreezeLine(ds[k]))
  }

  /** The line unpacks into exactly two names. */
  predicate Unpackable(line: string) {
    |Split(line, "==")| == 2
  }

  function DepOf(line: string): (d: Dep)
    requires Unpackable(line)
    ensures FreezeLine(d) == line
    ensures !Contains(d.name, "==") && !Contains(d.version, "==")
    ensures IndexFrom(line, "==", 0) == Some(|d.name|)
  {
    var parts := Split(line, "==");
    assert Join(parts, "==") == parts[0] + "==" + parts[1];
    assert IndexFrom(line, "==", 0).Some? && parts[0] == line[..IndexFrom(line, "==", 0).value] by {
      if IndexFrom(line, "==", 0).Some? {
        SplitAt(line, "==", IndexFrom(line, "==", 0).value);
      }
    }
    Dep(parts[0], parts[1])
  }

  /** `xs` is `ys` with some elements left out, order kept. */
  predicate IsSubsequence<T(==)>(xs: seq<T>, ys: seq<T>)
    decreases |ys|
  {
    if |xs| == 0 then true
    else if |ys| == 0 then false
    else if xs[0] == ys[0] then IsSubsequence(xs[1..], ys[1..])
    else IsSubsequence(xs, ys[1..])
  }

  /** The loop over the freeze lines (scripts/update_formulas.py:91-96). */
  function FilterFreeze(lines: seq<string>, package: string): (r: Result<seq<Dep>, FreezeError>)
    ensures r.Failure? <==> exists k :: 0 <= k < |lines| && Contains(lines[k], "==") && !Unpackable(lines[k])
    ensures r.Failure? ==> r.error.line in lines && !Unpackable(r.error.line)
    ensures r.Success? ==> forall d :: d in r.value ==> !Skipped(d.name, package) && FreezeLine(d) in lines
  {
    if |lines| == 0 then Success([])
    else if Contains(lines[0], "==") && !Unpackable(lines[0]) then Failure(UnpackError(lines[0]))
    else
      match FilterFreeze(lines[1..], package)
      case Failure(e) => Failure(e)
      case Success(ds) =>
        if Contains(lines[0], "==") && !Skipped(DepOf(lines[0]).name, package)
        then Success([DepOf(lines[0])] + ds)
        else Success(ds)
  }

  /** One turn of the loop: the first line, when well-formed and not
      skipped, yields the first dependency, in front of those of the rest. */
  lemma FilterFreezeStep(lines: seq<string>, package: string)
    requires |lines| > 0 && FilterFreeze(lines, package).Success?
    ensures FilterFreeze(lines[1..], package).Success?
    ensures var ds := FilterFreeze(lines[1..], package).value;
            FilterFreeze(lines, package).value
            == if Contains(lines[0], "==") && Unpackable(lines[0]) && !Skipped(DepOf(lines[0]).name, package)
               then [DepOf(lines[0])] + ds else ds
  {
  }

  /** Every well-formed freeze line whose name is not skipped yields a dependency. */
  lemma {:induction false} FilterFreezeKeeps(lines: seq<string>, package: string, k: nat)
    requires k < |lines| && Contains(lines[k], "==") && Unpackable(lines[k])
    requires !Skipped(DepOf(lines[k]).name, package)
    requires FilterFreeze(lines, package).Success?
    ensures DepOf(lines[k]) in FilterFreeze(lines, package).value
  {
    FilterFreezeStep(lines, package);
    if k > 0 {
      assert lines[k] == lines[1..][k - 1];
      FilterFreezeKeeps(lines[1..], package, k - 1);
    }
  }

  lemma {:induction false} SubsequenceCons<T>(xs: seq<T>, ys: seq<T>, y: T)
    requires IsSubsequence(xs, ys)
    ensures IsSubsequence(xs, [y] + ys)
    decreases |ys| + 1, 0
  {
    if |xs| > 0 && xs[0] == y {
      SubsequenceTail(xs, ys);
      assert ([y] + ys)[1..] == ys;
    } else {
      assert ([y] + ys)[1..] == ys;
    }
  }

  lemma {:induction false} SubsequenceTail<T>(xs: seq<T>, ys: seq<T>)
    requires |xs| > 0 && IsSubsequence(xs, ys)
    ensures IsSubsequence(xs[1..], ys)
    decreases |ys|, 1
  {
    if xs[0] == ys[0] {
      SubsequenceCons(xs[1..], ys[1..], ys[0]);
    } else {
      SubsequenceTail(xs, ys[1..]);
      SubsequenceCons(xs[1..], ys[1..], ys[0]);
    }
    assert [ys[0]] + ys[1..] == ys;
  }

  /** The dependencies come out in the order of their freeze lines. */
  lemma {:induction false} FilterFreezeInOrder(lines: seq<string>, package: string)
    requires FilterFreeze(lines, package).Success?
    ensures IsSubsequence(FreezeLines(FilterFreeze(lines, package).value), lines)
  {
    if |lines| > 0 {
      FilterFreezeStep(lines, package);
      FilterFreezeInOrder(lines[1..], package);
      var ds := FilterFreeze(lines[1..], package).value;
      var r := FilterFreeze(lines, package).value;
      assert [lines[0]] + lines[1..] == lines;
      if r == ds {
        SubsequenceCons(FreezeLines(ds), lines[1..], lines[0]);
      } else {
        FreezeLinesCons(DepOf(lines[0]), ds);
        SubsequenceKeep(lines[0], FreezeLines(ds), lines[1..]);
      }
    }
  }

  lemma FreezeLinesCons(d: Dep, ds: seq<Dep>)
    ensures FreezeLines([d] + ds) == [FreezeLine(d)] + FreezeLines(ds)
  {
  }

  lemma SubsequenceKeep<T>(x: T, xs: seq<T>, ys: seq<T>)
    requires IsSubsequence(xs, ys)
    ensures IsSubsequence([x] + xs, [x] + ys)
  {
    assert ([x] + xs)[1..] == xs;
    assert ([x] + ys)[1..] == ys;
  }

  /** A freeze line the loop turns into a dependency: it contains `==`,
      unpacks, and its name is not skipped. */
  predicate KeepsLine(line: string, package: string) {
    Contains(line, "==") && Unpackable(line) && !Skipped(DepOf(line).name, package)
  }

  /** The freeze lines that are kept, in order. */
  function Kept(lines: seq<string>, package: string): (r: seq<string>)
    ensures forall k :: 0 <= k < |r| ==> Unpackable(r[k])
  {
    if |lines| == 0 then []
    else (if KeepsLine(lines[0], package) then [lines[0]] else []) + Kept(lines[1..], package)
  }

  /** The pair each of the given lines unpacks into. */
  function DepsOf(lines: seq<string>): (r: seq<Dep>)
    requires forall k :: 0 <= k < |lines| ==> Unpackable(lines[k])
    ensures FreezeLines(r) == lines
  {
    seq(|lines|, k requires 0 <= k < |lines| => DepOf(lines[k]))
  }

  /** On success the loop's result is exactly the pairs of the kept lines,
      one per kept line and in their order, repeated lines included. */
  lemma {:induction false} FilterFreezeExact(lines: seq<string>, package: string)
    requires FilterFreeze(lines, package).Success?
    ensures FilterFreeze(lines, package).value == DepsOf(Kept(lines, package))
    ensures FreezeLines(FilterFreeze(lines, package).value) == Kept(lines, package)
  {
    if |lines| > 0 {
      FilterFreezeStep(lines, package);
      FilterFreezeExact(lines[1..], package);
      var rest := Kept(lines[1..], package);
      if KeepsLine(lines[0], package) {
        assert Kept(lines, package) == [lines[0]] + rest;
        DepsOfCons(lines[0], rest);
      } else {
        assert Kept(lines, package) == rest;
      }
    }
  }

  lemma DepsOfCons(line: string, lines: seq<string>)
    requires Unpackable(line) && forall k :: 0 <= k < |lines| ==> Unpackable(lines[k])
    ensures DepsOf([line] + lines) == [DepOf(line)] + DepsOf(lines)
  {
  }

  /** What `get_package_dependencies` returns for the captured output of
      `pip freeze`: the stripped output cut into lines and filtered. */
  function PackageDependencies(freezeOutput: Option<string>, package: string): (r: Result<seq<Dep>, FreezeError>)
    ensures freezeOutput.None? ==> r == Success([])
    ensures r.Success? ==> forall d :: d in r.value ==> !Skipped(d.name, package)
    ensures r.Success? && freezeOutput.Some? ==>
      forall d :: d in r.value ==> FreezeLine(d) in Split(Strip(freezeOutput.value), "\n")
  {
    match freezeOutput
    case None => Success([])
    case Some(out) => FilterFreeze(Split(Strip(out), "\n"), package)
  }
}
