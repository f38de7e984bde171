/**
 * The `Rectangle` record of the treemap and the checks its constructor makes:
 * `validate_tuple_param` rejects a pair with a negative coordinate, and the whole layout
 * fails with the first rectangle whose construction is rejected.
 */
module Rectangles {
  import opened Wrappers

  datatype Rect = Rect(x: real, y: real, width: real, height: real, name: string, verbose: string)

  /** A region of the plane handed to a subtree: origin and size. */
  datatype Box = Box(x: real, y: real, width: real, height: real)

  /** The failed assertion: which parameter was negative, and its value. */
  datatype RectError = NegativeValue(param: string, value: (real, real))

  /** The non-negativity check of `validate_tuple_param` on the parameter called `param`. */
  function ValidateTupleParam(p: (real, real), param: string): (r: Option<RectError>)
    ensures r.None? <==> p.0 >= 0.0 && p.1 >= 0.0
    ensures r.Some? ==> r.value == NegativeValue(param, p)
  {
    if p.0 >= 0.0 && p.1 >= 0.0 then None else Some(NegativeValue(param, p))
  }

  /**
   * The constructor as `Rectangle.__init__` is written: `origin` is validated twice, the second time
   * under the name "size", and `size` itself is never validated.
   */
  function NewRectangleAsWritten(origin: (real, real), size: (real, real), name: string, verbose: string)
    : (r: Result<Rect, RectError>)
    ensures r.Success? <==> origin.0 >= 0.0 && origin.1 >= 0.0
    ensures r.Success? ==> r.value == Rect(origin.0, origin.1, size.0, size.1, name, verbose)
  {
    match ValidateTupleParam(origin, "origin")
    case Some(e) => Failure(e)
    case None =>
      match ValidateTupleParam(origin, "size")
      case Some(e) => Failure(e)
      case None => Success(Rect(origin.0, origin.1, size.0, size.1, name, verbose))
  }

  /** The constructor as intended: `origin` and then `size` are validated. */
  function NewRectangle(origin: (real, real), size: (real, real), name: string, verbose: string)
    : (r: Result<Rect, RectError>)
    ensures r.Success? <==> origin.0 >= 0.0 && origin.1 >= 0.0 && size.0 >= 0.0 && size.1 >= 0.0
    ensures r.Success? ==> r.value == Rect(origin.0, origin.1, size.0, size.1, name, verbose)
    ensures r.Failure? && (origin.0 < 0.0 || origin.1 < 0.0) ==> r.error == NegativeValue("origin", origin)
    ensures r.Failure? && origin.0 >= 0.0 && origin.1 >= 0.0 ==> r.error == NegativeValue("size", size)
  {
    match ValidateTupleParam(origin, "origin")
    case Some(e) => Failure(e)
    case None =>
      match ValidateTupleParam(size, "size")
      case Some(e) => Failure(e)
      case None => Success(Rect(origin.0, origin.1, size.0, size.1, name, verbose))
  }

  /** A rectangle whose origin and size are both non-negative. */
  predicate NonNegative(r: Rect) {
    r.x >= 0.0 && r.y >= 0.0 && r.width >= 0.0 && r.height >= 0.0
  }

  /** A negative size slips through the constructor as written, and not the corrected one. */
  lemma SizeUncheckedAsWritten()
    ensures NewRectangleAsWritten((0.0, 0.0), (-1.0, -1.0), "a", "a").Success?
    ensures NewRectangle((0.0, 0.0), (-1.0, -1.0), "a", "a") == Failure(NegativeValue("size", (-1.0, -1.0)))
  {
  }

  /** Which constructor builds the rectangles: `Rectangle.__init__` as written, or as intended. */
  datatype Constructor = AsWritten | Corrected

  /** Builds the rectangle `r` describes with the chosen constructor. */
  function Construct(c: Constructor, r: Rect): (n: Result<Rect, RectError>)
    ensures n.Success? <==> Accepts(c, r)
    ensures n.Success? ==> n.value == r
    ensures n.Failure? && (r.x < 0.0 || r.y < 0.0) ==> n.error == NegativeValue("origin", (r.x, r.y))
  {
    match c
    case AsWritten => NewRectangleAsWritten((r.x, r.y), (r.width, r.height), r.name, r.verbose)
    case Corrected => NewRectangle((r.x, r.y), (r.width, r.height), r.name, r.verbose)
  }

  /** What the constructor accepts: a non-negative origin, and as intended a non-negative size too. */
  predicate Accepts(c: Constructor, r: Rect) {
    r.x >= 0.0 && r.y >= 0.0 && (c == Corrected ==> r.width >= 0.0 && r.height >= 0.0)
  }

  /**
   * Constructs the rectangles in order; the first one the constructor rejects makes the
   * whole result that rejection, as the assertion stops the layout.
   */
  function Checked(c: Constructor, rs: seq<Rect>): (r: Result<seq<Rect>, RectError>)
    ensures r.Success? <==> forall k :: 0 <= k < |rs| ==> Accepts(c, rs[k])
    ensures r.Success? ==> r.value == rs
    ensures r.Failure? && rs != [] && !Accepts(c, rs[0]) ==> r.error == Construct(c, rs[0]).error
    decreases |rs|
  {
    if rs == [] then Success([])
    else
      assert forall k :: 1 <= k < |rs| ==> rs[k] == rs[1..][k - 1];
      match Construct(c, rs[0])
      case Failure(e) => Failure(e)
      case Success(r) =>
        match Checked(c, rs[1..])
        case Failure(e) => Failure(e)
        case Success(rest) => assert [r] + rest == rs; Success([r] + rest)
  }

  /**
   * Where no size is negative the constructor as written and the corrected one agree,
   * on acceptance and on the rejection reported.
   */
  lemma {:induction false} CheckedAgree(rs: seq<Rect>)
    requires forall k :: 0 <= k < |rs| ==> 0.0 <= rs[k].width && 0.0 <= rs[k].height
    ensures Checked(AsWritten, rs) == Checked(Corrected, rs)
    decreases |rs|
  {
    if rs != [] {
      assert forall k :: 0 <= k < |rs| - 1 ==> rs[1..][k] == rs[k + 1];
      CheckedAgree(rs[1..]);
    }
  }

  /** Rectangles from two parts: the first part's rejection, else the second's, else both. */
  lemma {:induction false} CheckedPlus(c: Constructor, a: seq<Rect>, b: seq<Rect>)
    ensures Checked(c, a + b) ==
      if Checked(c, a).Failure? then Checked(c, a)
      else if Checked(c, b).Failure? then Checked(c, b)
      else Success(a + b)
    decreases |a|
  {
    if a == [] {
      assert a + b == b;
    } else {
      assert (a + b)[0] == a[0];
      assert (a + b)[1..] == a[1..] + b;
      CheckedPlus(c, a[1..], b);
    }
  }

  /** A single rectangle is accepted, as itself, exactly when the constructor accepts it. */
  lemma CheckedOne(c: Constructor, r: Rect)
    ensures var n := Construct(c, r);
      Checked(c, [r]) == if n.Failure? then Failure(n.error) else Success([r])
  {
    assert [r][1..] == [];
    assert [r] + [] == [r];
  }

  /** Once some rectangle is rejected, what follows it does not matter. */
  lemma CheckedRejected(c: Constructor, a: seq<Rect>, b: seq<Rect>)
    requires Checked(c, a).Failure?
    ensures Checked(c, a + b) == Checked(c, a)
  {
    CheckedPlus(c, a, b);
  }

  /** After rectangles that are all accepted, the outcome is that of the rest. */
  lemma CheckedAccepted(c: Constructor, a: seq<Rect>, b: seq<Rect>)
    requires Checked(c, a).Success?
    ensures Checked(c, a + b) == if Checked(c, b).Failure? then Checked(c, b) else Success(a + b)
  {
    CheckedPlus(c, a, b);
  }
}
