// Model of Data_Struct_Implementation/strstr/strstr.c: a naive substring
// search over NUL-terminated strings. A C string is its characters before
// the terminator, so it holds no '\0', and reading one past its end gives
// the terminator.
module StrStr {

  datatype Option<T> = None | Some(value: T)

  /** A C string: no character is the terminator. */
  predicate IsCString(s: seq<char>)
  {
    '\0' !in s
  }

  /** `*(s + k)`: the character at `k`, or the terminator from the end on. */
  function At(s: seq<char>, k: nat): char
  {
    if k < |s| then s[k] else '\0'
  }

  /** `y` occurs in `x` starting at `i`. */
  ghost predicate OccursAt(x: seq<char>, y: seq<char>, i: nat)
  {
    i <= |x| && y <= x[i..]
  }

  /** `compare(X + xi, Y)`: the two pointers advance together while
      neither points at a terminator, failing at the first pair that
      differs; at the end `Y` must be exhausted. The answer is whether `y`
      is a prefix of `x` from `xi` on. */
  method Compare(x: seq<char>, xi: nat, y: seq<char>) returns (r: bool)
    requires IsCString(x) && IsCString(y) && xi <= |x|
    ensures r <==> OccursAt(x, y, xi)
  {
    var k := 0;
    while At(x, xi + k) != '\0' && At(y, k) != '\0'
      invariant xi + k <= |x| && k <= |y|
      invariant y[..k] == x[xi..xi + k]
      decreases |x| - (xi + k)
    {
      if At(x, xi + k) != At(y, k) {
        assert x[xi..][k] != y[k];
        return false;
      }
      assert y[..k + 1] == y[..k] + [y[k]];
      assert x[xi..xi + k + 1] == x[xi..xi + k] + [x[xi + k]];
      k := k + 1;
    }
    if k < |y| {
      assert xi + k == |x|;
      assert |x[xi..]| < |y|;
    } else {
      assert y == y[..k] && x[xi..xi + k] == x[xi..][..k];
    }
    r := At(y, k) == '\0';
  }

  /** `strstr(X, Y)`: the index of the first position of `x` at which `y`
      occurs, scanning while `X` is not at its terminator; `None` (NULL)
      when there is none. The first character is compared before `compare`
      is called. An empty `y` is never found, and nothing is found in an
      empty `x`. */
  method StrStr(x: seq<char>, y: seq<char>) returns (r: Option<nat>)
    requires IsCString(x) && IsCString(y)
    ensures y == [] || x == [] ==> r == None
    ensures r.Some? ==> r.value < |x| && OccursAt(x, y, r.value)
    ensures r.Some? ==> forall j :: 0 <= j < r.value ==> !OccursAt(x, y, j)
    ensures r.None? && y != [] ==> forall j :: 0 <= j <= |x| ==> !OccursAt(x, y, j)
  {
    var i := 0;
    while At(x, i) != '\0'
      invariant i <= |x|
      invariant y != [] ==> forall j :: 0 <= j < i ==> !OccursAt(x, y, j)
      decreases |x| - i
    {
      if At(x, i) == At(y, 0) {
        var found := Compare(x, i, y);
        if found {
          assert y != [] by {
            assert At(x, i) != '\0';
          }
          return Some(i);
        }
      } else if y != [] {
        assert x[i..][0] != y[0];
      }
      i := i + 1;
    }
    if y != [] {
      assert !OccursAt(x, y, |x|);
    }
    r := None;
  }

  /** The search run by `main`: "Coding" occurs first at index 17 of
      "Techie Delight - Coding made easy". */
  lemma {:induction false} DemoFirstOccurrence()
    ensures OccursAt("Techie Delight - Coding made easy", "Coding", 17)
    ensures forall j :: 0 <= j < 17 ==> !OccursAt("Techie Delight - Coding made easy", "Coding", j)
  {
    var x: seq<char> := "Techie Delight - Coding made easy";
    assert x[17..23] == "Coding";
    var front := x[..17];
    assert front == "Techie Delight - ";
    assert 'C' !in front;
    forall j | 0 <= j < 17
      ensures !OccursAt(x, "Coding", j)
    {
      assert x[j..][0] == front[j] != 'C';
    }
  }
}
