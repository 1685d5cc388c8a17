/** The failure modes of the parsers and the value-or-error type that carries
    them in place of Python exceptions. */
module Results {

  datatype Option<+T> = None | Some(value: T)

  datatype Error =
    | Malformed(text: string)               // ValueError: not a PEP 440 constraint
    | UnknownLabel(tag: string)             // TypeError: no such keyword argument
    | UnknownComparator(comparator: string) // KeyError in the comparator mapping
    | TupleIndex(index: nat)                // IndexError on a 10-field key
    | NotAString                            // TypeError: re.match on a non-string
    | FileNotFound(path: string)            // the requirements file cannot be opened
    | IncludeTooDeep(path: string)          // nested includes exceed the depth bound

  datatype Result<+T> = Ok(value: T) | Err(error: Error)

  /** The results of a computation applied to each element in order, as a
      Python loop or comprehension that stops at the first exception: all
      the values, or the first error. */
  function Collect<T>(rs: seq<Result<T>>): (r: Result<seq<T>>)
    ensures r.Ok? <==> forall i :: 0 <= i < |rs| ==> rs[i].Ok?
    ensures r.Ok? ==> |r.value| == |rs| && forall i :: 0 <= i < |rs| ==> rs[i] == Ok(r.value[i])
    ensures r.Err? ==> exists i :: 0 <= i < |rs| && rs[i] == Err(r.error)
                          && forall j :: 0 <= j < i ==> rs[j].Ok?
    decreases |rs|
  {
    if |rs| == 0 then Ok([])
    else
      match rs[0]
      case Err(e) => Err(e)
      case Ok(x) =>
        var tail := Collect(rs[1..]);
        assert forall i :: 1 <= i < |rs| ==> rs[i] == rs[1..][i - 1];
        match tail
        case Err(e) =>
          var i :| 0 <= i < |rs[1..]| && rs[1..][i] == Err(e) && forall j :: 0 <= j < i ==> rs[1..][j].Ok?;
          assert rs[i + 1] == Err(e) && forall j :: 0 <= j < i + 1 ==> rs[j].Ok?;
          Err(e)
        case Ok(xs) => Ok([x] + xs)
  }

  /** Collecting is a fold: the first result decides whether the rest is
      looked at. */
  lemma CollectCons<T>(x: Result<T>, rs: seq<Result<T>>)
    ensures Collect([x] + rs) ==
              (if x.Err? then Err(x.error)
               else if Collect(rs).Err? then Err(Collect(rs).error)
               else Ok([x.value] + Collect(rs).value))
  {
    assert ([x] + rs)[1..] == rs;
  }

  /** Python's `all` over a generator whose items may raise: the first item
      that raises or is false decides, and later items are not evaluated. */
  function AllOf(rs: seq<Result<bool>>): (r: Result<bool>)
    ensures r == Ok(true) <==> forall i :: 0 <= i < |rs| ==> rs[i] == Ok(true)
    ensures r == Ok(false) ==> exists i :: 0 <= i < |rs| && rs[i] == Ok(false)
                                 && forall j :: 0 <= j < i ==> rs[j] == Ok(true)
    ensures r.Err? ==> exists i :: 0 <= i < |rs| && rs[i] == Err(r.error)
                          && forall j :: 0 <= j < i ==> rs[j] == Ok(true)
    decreases |rs|
  {
    if |rs| == 0 then Ok(true)
    else if rs[0] != Ok(true) then rs[0]
    else
      var r := AllOf(rs[1..]);
      assert forall i :: 1 <= i < |rs| ==> rs[i] == rs[1..][i - 1];
      if r.Ok? && !r.value then
        var i :| 0 <= i < |rs[1..]| && rs[1..][i] == Ok(false) && forall j :: 0 <= j < i ==> rs[1..][j] == Ok(true);
        assert rs[i + 1] == Ok(false) && forall j :: 0 <= j < i + 1 ==> rs[j] == Ok(true);
        r
      else if r.Err? then
        var i :| 0 <= i < |rs[1..]| && rs[1..][i] == Err(r.error) && forall j :: 0 <= j < i ==> rs[1..][j] == Ok(true);
        assert rs[i + 1] == Err(r.error) && forall j :: 0 <= j < i + 1 ==> rs[j] == Ok(true);
        r
      else r
  }

  /** When no item raises, `all` is the conjunction of the items. */
  lemma AllOfValues(rs: seq<Result<bool>>)
    requires forall i :: 0 <= i < |rs| ==> rs[i].Ok?
    ensures AllOf(rs) == Ok(forall i :: 0 <= i < |rs| ==> rs[i].value)
  {
    var r := AllOf(rs);
    if r == Ok(false) {
      var i :| 0 <= i < |rs| && rs[i] == Ok(false);
      assert !rs[i].value;
    } else if r.Ok? {
      assert r.value && r == Ok(true);
    }
  }

  /** When every item raises the same error, `all` raises it. */
  lemma AllOfError(rs: seq<Result<bool>>, e: Error)
    requires 0 < |rs| && forall i :: 0 <= i < |rs| ==> rs[i] == Err(e)
    ensures AllOf(rs) == Err(e)
  {
    var r := AllOf(rs);
    assert r != Ok(true) by { assert rs[0] != Ok(true); }
  }

  /** Running two steps that each produce a list, in order, and joining
      the lists: the first error stops everything. */
  function Then<T>(a: Result<seq<T>>, b: Result<seq<T>>): (r: Result<seq<T>>)
    ensures r.Ok? <==> a.Ok? && b.Ok?
    ensures r.Ok? ==> r.value == a.value + b.value
    ensures r.Err? ==> r == (if a.Err? then a else b)
  {
    if a.Err? then a else if b.Err? then b else Ok(a.value + b.value)
  }

  lemma ThenAssociative<T>(a: Result<seq<T>>, b: Result<seq<T>>, c: Result<seq<T>>)
    ensures Then(Then(a, b), c) == Then(a, Then(b, c))
  {
    if a.Ok? && b.Ok? && c.Ok? {
      assert (a.value + b.value) + c.value == a.value + (b.value + c.value);
    }
  }
}
