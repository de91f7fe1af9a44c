/** The pipelines of an instance (fatbuildr/instances.py): distributions by format,
    and derivatives that extend one another. */
module Pipelines {
  import opened Wrappers

  datatype Derivative = Derivative(formats: Option<set<string>>, parent: Option<string>)

  /** `formats` lists the distributions of each format in the order of the instance
      file; `order` lists the derivatives, empty when the file has none. */
  datatype Pipelines = Pipelines(
    formats: seq<(string, seq<string>)>,
    derivatives: map<string, Derivative>,
    order: seq<string>)

  /** FatbuildrPipelineError on a derivative or a distribution, and KeyError. */
  datatype Error = NotSupported(derivative: string) | NotFound(distribution: string) | MissingKey(derivative: string)

  const MAIN := "main"

  ghost predicate Valid(p: Pipelines) {
    Distinct(p.order) && forall d :: d in p.order <==> d in p.derivatives
  }

  /** A derivative whose definition the recursions look at. */
  predicate Extending(p: Pipelines, d: string) {
    d != MAIN && d in p.derivatives
  }

  function Parent(p: Pipelines, d: string): string
    requires d in p.derivatives
  {
    if p.derivatives[d].parent.Some? then p.derivatives[d].parent.value else MAIN
  }

  function Declared(p: Pipelines, d: string): set<string>
    requires d in p.derivatives
  {
    if p.derivatives[d].formats.Some? then p.derivatives[d].formats.value else {}
  }

  function Formats(p: Pipelines): set<string> {
    set k | 0 <= k < |p.formats| :: p.formats[k].0
  }

  // ---- termination ----

  /** Following `extends` from `d` stops within `n` steps, at main or at a name that
      is not a derivative. */
  predicate EndsWithin(p: Pipelines, d: string, n: nat)
    decreases n
  {
    !Extending(p, d) || (n > 0 && EndsWithin(p, Parent(p, d), n - 1))
  }

  function Ancestor(p: Pipelines, d: string, k: nat): string
    decreases k
  {
    if k == 0 || !Extending(p, d) then d else Ancestor(p, Parent(p, d), k - 1)
  }

  /** Some derivative comes twice when following `extends` from `d`. */
  ghost predicate Repeats(p: Pipelines, d: string) {
    exists i: nat, j: nat :: i < j && Ancestor(p, d, i) == Ancestor(p, d, j) && Extending(p, Ancestor(p, d, i))
  }

  lemma {:induction false} AncestorsAreExtending(p: Pipelines, d: string, n: nat, k: nat)
    requires !EndsWithin(p, d, n) && k <= n
    ensures Extending(p, Ancestor(p, d, k))
    decreases k
  {
    if k > 0 {
      AncestorsAreExtending(p, Parent(p, d), n - 1, k - 1);
    }
  }

  lemma {:induction false} AncestorOfAncestor(p: Pipelines, d: string, i: nat, j: nat)
    ensures Ancestor(p, Ancestor(p, d, i), j) == Ancestor(p, d, i + j)
    decreases i
  {
    if i > 0 && Extending(p, d) {
      AncestorOfAncestor(p, Parent(p, d), i - 1, j);
    }
  }

  lemma {:induction false} AncestorEndsSooner(p: Pipelines, d: string, n: nat, k: nat)
    requires EndsWithin(p, d, n)
    ensures if k <= n then EndsWithin(p, Ancestor(p, d, k), n - k) else !Extending(p, Ancestor(p, d, k))
    decreases k
  {
    if k > 0 && Extending(p, d) {
      AncestorEndsSooner(p, Parent(p, d), n - 1, k - 1);
    }
  }

  lemma {:induction false} LoopNeverEnds(p: Pipelines, d: string, period: nat, n: nat)
    requires Extending(p, d) && period > 0 && Ancestor(p, d, period) == d
    ensures !EndsWithin(p, d, n)
    decreases n
  {
    if EndsWithin(p, d, n) {
      AncestorEndsSooner(p, d, n, period);
      LoopNeverEnds(p, d, period, n - period);
    }
  }

  lemma {:induction false} Pigeonhole(names: seq<string>, holes: set<string>)
    requires |names| > |holes| && forall k :: 0 <= k < |names| ==> names[k] in holes
    ensures exists i, j :: 0 <= i < j < |names| && names[i] == names[j]
    decreases |names|
  {
    var last := names[|names| - 1];
    var init := names[..|names| - 1];
    if last in init {
      var i :| 0 <= i < |init| && init[i] == last;
      assert names[i] == names[|names| - 1];
    } else {
      assert forall k :: 0 <= k < |init| ==> init[k] in holes - {last};
      Pigeonhole(init, holes - {last});
      var i, j :| 0 <= i < j < |init| && init[i] == init[j];
      assert names[i] == names[j];
    }
  }

  /** Both recursions stop on `d` if and only if no derivative repeats on its chain,
      and then within as many steps as there are derivatives: in particular always
      when no derivative extends itself, directly or not. */
  lemma TerminatesUnlessRepeats(p: Pipelines, d: string)
    ensures (exists n: nat :: EndsWithin(p, d, n)) <==> !Repeats(p, d)
    ensures !Repeats(p, d) ==> EndsWithin(p, d, |p.derivatives|)
  {
    var n: nat := |p.derivatives|;
    if !EndsWithin(p, d, n) {
      var names := seq(n + 1, k requires 0 <= k <= n => Ancestor(p, d, k));
      forall k | 0 <= k < |names|
        ensures names[k] in p.derivatives.Keys
      {
        AncestorsAreExtending(p, d, n, k);
      }
      assert |p.derivatives.Keys| == n;
      Pigeonhole(names, p.derivatives.Keys);
      var i: nat, j: nat :| 0 <= i < j < |names| && names[i] == names[j];
      AncestorsAreExtending(p, d, n, i);
      assert Ancestor(p, d, i) == names[i] == names[j] == Ancestor(p, d, j);
      assert Repeats(p, d);
    }
    if Repeats(p, d) {
      var i: nat, j: nat :|
        i < j && Ancestor(p, d, i) == Ancestor(p, d, j) && Extending(p, Ancestor(p, d, i));
      var e := Ancestor(p, d, i);
      AncestorOfAncestor(p, d, i, j - i);
      forall m: nat
        ensures !EndsWithin(p, d, m)
      {
        if EndsWithin(p, d, m) {
          AncestorEndsSooner(p, d, m, i);
          LoopNeverEnds(p, e, j - i, m - i);
        }
      }
    } else {
      assert exists m: nat :: EndsWithin(p, d, m) by {
        assert EndsWithin(p, d, n);
      }
    }
  }

  // ---- the recursions ----

  /** recursive_derivatives(); `n` bounds the recursion, and does not matter. */
  function RecursiveDerivatives(p: Pipelines, d: string, ghost n: nat): Result<seq<string>, Error>
    requires EndsWithin(p, d, n)
    decreases n
  {
    if d == MAIN then Ok([MAIN])
    else if d !in p.derivatives then Err(MissingKey(d))
    else match RecursiveDerivatives(p, Parent(p, d), n - 1)
         case Err(e) => Err(e)
         case Ok(chain) => Ok([d] + chain)
  }

  /** derivative_formats() */
  function DerivativeFormats(p: Pipelines, d: string, ghost n: nat): Result<set<string>, Error>
    requires EndsWithin(p, d, n)
    decreases n
  {
    if d == MAIN then Ok(Formats(p))
    else if d !in p.derivatives then Err(NotSupported(d))
    else match DerivativeFormats(p, Parent(p, d), n - 1)
         case Err(e) => Err(e)
         case Ok(formats) => Ok(Declared(p, d) * formats)
  }

  lemma {:induction false} BoundDoesNotMatter(p: Pipelines, d: string, n: nat, m: nat)
    requires EndsWithin(p, d, n) && EndsWithin(p, d, m)
    ensures RecursiveDerivatives(p, d, n) == RecursiveDerivatives(p, d, m)
    ensures DerivativeFormats(p, d, n) == DerivativeFormats(p, d, m)
    decreases n
  {
    if Extending(p, d) {
      BoundDoesNotMatter(p, Parent(p, d), n - 1, m - 1);
    }
  }

  /** Each derivative of the chain but the last is followed by its parent. */
  ghost predicate IsChain(p: Pipelines, chain: seq<string>) {
    && chain != [] && chain[|chain| - 1] == "main"
    && forall k :: 0 <= k < |chain| - 1 ==>
         && chain[k] != "main" && chain[k] in p.derivatives
         && match p.derivatives[chain[k]].parent
            case None => chain[k + 1] == "main"
            case Some(parent) => chain[k + 1] == parent
  }

  lemma {:induction false} ChainOfDerivatives(p: Pipelines, d: string, n: nat)
    requires EndsWithin(p, d, n) && RecursiveDerivatives(p, d, n).Ok?
    ensures IsChain(p, RecursiveDerivatives(p, d, n).value)
    ensures RecursiveDerivatives(p, d, n).value[0] == d
    decreases n
  {
    if d != MAIN {
      ChainOfDerivatives(p, Parent(p, d), n - 1);
    }
  }

  lemma {:induction false} ChainsAreUnique(p: Pipelines, a: seq<string>, b: seq<string>)
    requires IsChain(p, a) && IsChain(p, b) && a[0] == b[0]
    ensures |a| == |b|
    decreases |a|
  {
    if |a| > 1 && |b| > 1 {
      ChainsAreUnique(p, a[1..], b[1..]);
    }
  }

  lemma ElementsOfDistinct(names: seq<string>, holes: set<string>)
    requires Distinct(names) && forall k :: 0 <= k < |names| ==> names[k] in holes
    ensures |names| <= |holes|
  {
    if |names| > |holes| {
      Pigeonhole(names, holes);
    }
  }

  /** The chain starts at the derivative, ends in main, has no repeats and is no
      longer than the number of derivatives plus one. */
  lemma ChainIsShort(p: Pipelines, d: string, n: nat)
    requires EndsWithin(p, d, n) && RecursiveDerivatives(p, d, n).Ok?
    ensures var chain := RecursiveDerivatives(p, d, n).value;
            && IsChain(p, chain) && chain[0] == d
            && Distinct(chain)
            && |chain| <= |p.derivatives| + 1
  {
    ChainOfDerivatives(p, d, n);
    var chain := RecursiveDerivatives(p, d, n).value;
    forall i, j | 0 <= i < j < |chain|
      ensures chain[i] != chain[j]
    {
      if chain[i] == chain[j] {
        ChainsAreUnique(p, chain[i..], chain[j..]);
      }
    }
    assert |p.derivatives.Keys| == |p.derivatives|;
    ExtendingOnly(p, chain);
    ElementsOfDistinct(chain[..|chain| - 1], p.derivatives.Keys);
  }

  lemma ExtendingOnly(p: Pipelines, chain: seq<string>)
    requires IsChain(p, chain) && Distinct(chain)
    ensures Distinct(chain[..|chain| - 1])
    ensures forall k :: 0 <= k < |chain| - 1 ==> chain[k] in p.derivatives.Keys
  {
  }

  /** The definition of the derivative has formats, and this is one. */
  predicate Declares(p: Pipelines, d: string, format: string) {
    d in p.derivatives && p.derivatives[d].formats.Some? && format in p.derivatives[d].formats.value
  }

  ghost predicate InPipeline(p: Pipelines, format: string) {
    exists k :: 0 <= k < |p.formats| && p.formats[k].0 == format
  }

  ghost predicate EachDeclares(p: Pipelines, chain: seq<string>, format: string) {
    forall e :: e in chain && e != MAIN ==> Declares(p, e, format)
  }

  lemma AllDeclare(p: Pipelines, d: string, rest: seq<string>, format: string)
    requires d != MAIN
    ensures EachDeclares(p, [d] + rest, format) <==> Declares(p, d, format) && EachDeclares(p, rest, format)
  {
    assert forall e :: e in [d] + rest <==> e == d || e in rest;
  }

  /** A format is supported by a derivative if and only if it is a pipeline format
      declared by every derivative of its chain; both recursions fail on the same
      unknown name, each with its own exception. */
  lemma {:induction false} FormatsOfChain(p: Pipelines, d: string, n: nat, format: string)
    requires EndsWithin(p, d, n)
    ensures match RecursiveDerivatives(p, d, n)
            case Err(e) =>
              e.MissingKey? && e.derivative != MAIN && e.derivative !in p.derivatives &&
              DerivativeFormats(p, d, n) == Err(NotSupported(e.derivative))
            case Ok(chain) =>
              DerivativeFormats(p, d, n).Ok? &&
              (format in DerivativeFormats(p, d, n).value <==>
               InPipeline(p, format) && EachDeclares(p, chain, format))
    decreases n
  {
    if Extending(p, d) {
      FormatsOfChain(p, Parent(p, d), n - 1, format);
      var rest := RecursiveDerivatives(p, Parent(p, d), n - 1);
      if rest.Ok? {
        AllDeclare(p, d, rest.value, format);
      }
    }
  }

  // ---- distributions ----

  /** The format number `k` lists the distribution, and no earlier one does. */
  predicate ListedFirst(formats: seq<(string, seq<string>)>, distribution: string, k: int) {
    && 0 <= k < |formats| && distribution in formats[k].1
    && forall j :: 0 <= j < k ==> distribution !in formats[j].1
  }

  /** dist_format(): the first format that lists the distribution. */
  function DistFormat(formats: seq<(string, seq<string>)>, distribution: string): (r: Result<string, Error>)
    ensures r.Ok? <==> exists k :: 0 <= k < |formats| && distribution in formats[k].1
    ensures r.Ok? ==> exists k :: ListedFirst(formats, distribution, k) && formats[k].0 == r.value
  {
    if formats == [] then Err(NotFound(distribution))
    else if distribution in formats[0].1 then
      assert ListedFirst(formats, distribution, 0);
      Ok(formats[0].0)
    else
      var r := DistFormat(formats[1..], distribution);
      assert forall k :: 0 <= k < |formats| - 1 ==> formats[1..][k] == formats[k + 1];
      assert r.Ok? ==> exists k :: ListedFirst(formats, distribution, k) && formats[k].0 == r.value by {
        if r.Ok? {
          var k :| ListedFirst(formats[1..], distribution, k) && formats[1..][k].0 == r.value;
          assert ListedFirst(formats, distribution, k + 1);
        }
      }
      r
  }

  /** The derivatives of `order` that declare a format themselves. */
  function Declaring(p: Pipelines, order: seq<string>, format: string): seq<string>
    requires forall d :: d in order ==> d in p.derivatives
  {
    if order == [] then []
    else
      var d := order[|order| - 1];
      Declaring(p, order[..|order| - 1], format) + if format in Declared(p, d) then [d] else []
  }

  function DistDerivativesOf(p: Pipelines, distribution: string): Result<seq<string>, Error>
    requires Valid(p)
  {
    if p.order == [] then Ok([MAIN])
    else match DistFormat(p.formats, distribution)
         case Err(e) => Err(e)
         case Ok(format) => Ok([MAIN] + Declaring(p, p.order, format))
  }

  /** dist_derivatives() */
  method DistDerivatives(p: Pipelines, distribution: string) returns (r: Result<seq<string>, Error>)
    requires Valid(p)
    ensures r == DistDerivativesOf(p, distribution)
    ensures r.Ok? && p.order != [] ==> forall d :: d in r.value[1..] <==>
                Declares(p, d, DistFormat(p.formats, distribution).value)
  {
    if DistFormat(p.formats, distribution).Ok? {
      DistDerivativesExact(p, distribution);
    }
    var result := [MAIN];
    if p.order == [] {
      return Ok(result);
    }
    var format := DistFormat(p.formats, distribution);
    if format.Err? {
      return Err(format.error);
    }
    for k := 0 to |p.order|
      invariant result == [MAIN] + Declaring(p, p.order[..k], format.value)
    {
      assert p.order[..k + 1][..k] == p.order[..k] && p.order[k] in p.order;
      if format.value in Declared(p, p.order[k]) {
        result := result + [p.order[k]];
      }
    }
    assert p.order[..|p.order|] == p.order;
    r := Ok(result);
  }

  lemma {:induction false} DeclaringMembers(p: Pipelines, order: seq<string>, format: string)
    requires (forall d :: d in order ==> d in p.derivatives) && Distinct(order)
    ensures forall d :: d in Declaring(p, order, format) <==> d in order && format in Declared(p, d)
    ensures Distinct(Declaring(p, order, format))
  {
    if order != [] {
      var init, last := order[..|order| - 1], order[|order| - 1];
      DeclaringMembers(p, init, format);
      assert order == init + [last] && last !in init;
    }
  }

  /** `dist_derivatives` lists, after main and without repeats, exactly the derivatives
      that declare the format of the distribution themselves. */
  lemma DistDerivativesExact(p: Pipelines, distribution: string)
    requires Valid(p) && DistFormat(p.formats, distribution).Ok?
    ensures DistDerivativesOf(p, distribution).Ok?
    ensures var list := DistDerivativesOf(p, distribution).value;
            && |list| > 0 && list[0] == MAIN && Distinct(list[1..])
            && forall d :: d in list[1..] <==> Declares(p, d, DistFormat(p.formats, distribution).value)
  {
    var format := DistFormat(p.formats, distribution).value;
    if p.order != [] {
      DeclaringMembers(p, p.order, format);
      assert ([MAIN] + Declaring(p, p.order, format))[1..] == Declaring(p, p.order, format);
    }
  }

  /** A derivative supports the format of a distribution if and only if the
      distribution lists every derivative of its chain; in particular it is then
      listed itself. */
  lemma SupportedIffChainIsListed(p: Pipelines, d: string, distribution: string, n: nat)
    requires Valid(p) && Extending(p, d) && EndsWithin(p, d, n)
    requires DistFormat(p.formats, distribution).Ok? && RecursiveDerivatives(p, d, n).Ok?
    ensures DerivativeFormats(p, d, n).Ok?
    ensures DistDerivativesOf(p, distribution).Ok? && |DistDerivativesOf(p, distribution).value| > 0
    ensures var listed := DistDerivativesOf(p, distribution).value[1..];
            var supported := DistFormat(p.formats, distribution).value in DerivativeFormats(p, d, n).value;
            && (supported <==> forall e :: e in RecursiveDerivatives(p, d, n).value && e != MAIN ==> e in listed)
            && (supported ==> d in listed)
  {
    var format := DistFormat(p.formats, distribution).value;
    DistDerivativesExact(p, distribution);
    FormatsOfChain(p, d, n, format);
    ChainOfDerivatives(p, d, n);
    var chain := RecursiveDerivatives(p, d, n).value;
    assert format in Formats(p);
    assert d in chain && forall e :: e in chain && e != MAIN ==> e in p.derivatives;
  }

  /** The converse of the inclusion fails: a derivative is listed for a distribution
      whose format one of those it extends does not declare. */
  lemma ListedButNotSupported() returns (p: Pipelines)
    ensures Valid(p) && DistFormat(p.formats, "el8") == Ok("rpm")
    ensures EndsWithin(p, "beta", 2) && Declares(p, "beta", "rpm")
    ensures DerivativeFormats(p, "beta", 2) == Ok({})
  {
    p := Pipelines([("rpm", ["el8"]), ("deb", ["bookworm"])],
                   map["beta" := Derivative(Some({"rpm"}), Some("stable")), "stable" := Derivative(Some({"deb"}), None)],
                   ["beta", "stable"]);
    assert Extending(p, "stable") && Parent(p, "stable") == MAIN && Parent(p, "beta") == "stable";
    assert EndsWithin(p, MAIN, 0);
    assert EndsWithin(p, "stable", 1);
    assert DerivativeFormats(p, "stable", 1) == Ok({"deb"} * Formats(p));
    assert {"rpm"} * ({"deb"} * Formats(p)) == {};
  }
}
