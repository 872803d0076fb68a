/** What several components share. */
module Commons {
  datatype Option<+T> = None | Some(value: T)

  /** The sizes of a request's two buffers (src/defines.h:53-54). */
  const CLIENT_STREAM_SIZE := 8192
  const BUFFER_SIZE := 4096

  function Min(a: int, b: int): int { if a < b then a else b }

  // ----- Characters and decimal numbers -----------------------------------------------

  function Lower(c: char): char { if 'A' <= c <= 'Z' then c + 32 as char else c }

  predicate IsDigit(c: char) { '0' <= c <= '9' }

  function Pow10(k: nat): nat { if k == 0 then 1 else 10 * Pow10(k - 1) }

  // ----- Lists of nodes ---------------------------------------------------------------

  ghost predicate Distinct<T>(s: seq<T>) { forall i, j :: 0 <= i < j < |s| ==> s[i] != s[j] }

  /** Nothing is on both lists. */
  ghost predicate Apart<T>(a: seq<T>, b: seq<T>) { forall x :: x in a ==> x !in b }

  function Reverse<T>(s: seq<T>): (r: seq<T>)
    ensures |r| == |s| && forall x :: x in r ==> x in s
  {
    if s == [] then [] else [s[|s| - 1]] + Reverse(s[..|s| - 1])
  }

  lemma ReverseSnoc<T>(s: seq<T>, x: T)
    ensures Reverse(s + [x]) == [x] + Reverse(s)
  {
    assert (s + [x])[..|s|] == s;
  }

  lemma {:induction false} ReverseCons<T>(x: T, s: seq<T>, rest: seq<T>)
    ensures Reverse([x] + s) + rest == Reverse(s) + ([x] + rest)
  {
    if s == [] {
      assert [x] + s == [x] && Reverse([x]) == [x] + Reverse([]);
    } else {
      var init, last := s[..|s| - 1], s[|s| - 1];
      assert [x] + s == ([x] + init) + [last] && s == init + [last];
      ReverseSnoc([x] + init, last);
      ReverseCons(x, init, rest);
      assert ([last] + Reverse([x] + init)) + rest == [last] + (Reverse([x] + init) + rest);
      assert ([last] + Reverse(init)) + ([x] + rest) == [last] + (Reverse(init) + ([x] + rest));
    }
  }
}
