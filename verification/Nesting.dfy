// Open and close marks that nest: which opens are still unmatched, by balance and by a
// stack. A close with nothing open is ignored.
module Nesting {
  datatype Mark = Open | Close | Other

  function Delta(mark: Mark): int {
    match mark
    case Open => 1
    case Close => -1
    case Other => 0
  }

  // Opens less closes of [a, b).
  ghost function Balance(marks: seq<Mark>, a: nat, b: nat): int
    requires a <= b <= |marks|
    decreases b
  {
    if a == b then 0 else Balance(marks, a, b - 1) + Delta(marks[b - 1])
  }

  // Mark o opens something that nothing before n closes: from o on, every stretch up to
  // n opens more than it closes.
  ghost predicate OpenAt(marks: seq<Mark>, o: nat, n: nat)
    requires n <= |marks|
  {
    && o < n && marks[o] == Open
    && forall j: nat {:trigger Balance(marks, o, j)} :: o < j <= n ==> Balance(marks, o, j) >= 1
  }

  // The same as a stack keeps it.
  ghost function Stack(marks: seq<Mark>, n: nat): (stack: seq<nat>)
    requires n <= |marks|
    ensures forall i :: 0 <= i < |stack| ==> stack[i] < n
  {
    if n == 0 then []
    else
      var before := Stack(marks, n - 1);
      match marks[n - 1]
      case Open => before + [n - 1]
      case Close => if before == [] then [] else before[..|before| - 1]
      case Other => before
  }

  lemma OpenAtStep(marks: seq<Mark>, o: nat, n: nat)
    requires o < n - 1 < |marks|
    ensures OpenAt(marks, o, n) <==> OpenAt(marks, o, n - 1) && Balance(marks, o, n) >= 1
  {
  }

  // Entry i of a stack has |stack| - i opens on top of what was open before it.
  ghost predicate Balanced(marks: seq<Mark>, n: nat, stack: seq<nat>)
    requires n <= |marks|
  {
    forall i :: 0 <= i < |stack| ==> stack[i] <= n && Balance(marks, stack[i], n) == |stack| - i
  }

  ghost predicate Ascending(s: seq<nat>) {
    forall i, j :: 0 <= i < j < |s| ==> s[i] < s[j]
  }

  lemma {:induction false} StackBalances(marks: seq<Mark>, n: nat)
    requires n <= |marks|
    ensures Balanced(marks, n, Stack(marks, n))
  {
    if n > 0 {
      StackBalances(marks, n - 1);
      var before, stack := Stack(marks, n - 1), Stack(marks, n);
      forall i | 0 <= i < |stack| ensures Balance(marks, stack[i], n) == |stack| - i {
        if i < |before| {
          assert stack[i] == before[i];
        } else {
          assert stack[i] == n - 1 && Balance(marks, n - 1, n - 1) == 0;
        }
      }
    }
  }

  lemma {:induction false} StackAscends(marks: seq<Mark>, n: nat)
    requires n <= |marks|
    ensures Ascending(Stack(marks, n))
  {
    if n > 0 {
      StackAscends(marks, n - 1);
    }
  }

  lemma {:induction false} StackIsOpen(marks: seq<Mark>, n: nat, o: nat)
    requires n <= |marks|
    ensures o in Stack(marks, n) <==> OpenAt(marks, o, n)
  {
    if o + 1 < n {
      StackIsOpen(marks, n - 1, o);
      OpenAtStep(marks, o, n);
      StackBalances(marks, n - 1);
      StackAscends(marks, n - 1);
      var before, stack := Stack(marks, n - 1), Stack(marks, n);
      if o in before {
        var i :| 0 <= i < |before| && before[i] == o;
        assert Balance(marks, o, n) == |before| - i + Delta(marks[n - 1]);
        assert i < |stack| ==> stack[i] == o;
      }
    } else if o + 1 == n {
      assert Balance(marks, o, o) == 0;
      var before, stack := Stack(marks, o), Stack(marks, n);
      if marks[o] == Open {
        assert stack[|stack| - 1] == o;
      }
    }
  }
}
