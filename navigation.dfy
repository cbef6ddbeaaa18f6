/** The arithmetic of the page script's two cursors: the current page moved
    by `changePage` and the modal's image index moved by `changeImage`. */
module Navigation {
  import opened Pagination

  /** `changePage(step)`: the page `currentPage + step`, unless it falls
      outside `[1, totalPages]`, in which case the page does not move. */
  function StepPage(current: int, step: int, totalPages: int): (r: int)
    ensures 1 <= current + step <= totalPages ==> r == current + step
    ensures !(1 <= current + step <= totalPages) ==> r == current
  {
    var newPage := current + step;
    if newPage < 1 || newPage > totalPages then current else newPage
  }

  /** The page stays in `[1, totalPages]` whatever the step. */
  lemma StepPageInRange(current: int, step: int, totalPages: int)
    requires 1 <= current <= totalPages
    ensures 1 <= StepPage(current, step, totalPages) <= totalPages
  {
  }

  /** The page reached by a run of clicks on the page links. */
  function PageAfter(current: int, steps: seq<int>, totalPages: int): int
    decreases |steps|
  {
    if steps == [] then current
    else PageAfter(StepPage(current, steps[0], totalPages), steps[1..], totalPages)
  }

  /** However many clicks, the page never leaves `[1, totalPages]`. */
  lemma {:induction false} PageAfterInRange(current: int, steps: seq<int>, totalPages: int)
    requires 1 <= current <= totalPages
    ensures 1 <= PageAfter(current, steps, totalPages) <= totalPages
    decreases |steps|
  {
    if steps != [] {
      StepPageInRange(current, steps[0], totalPages);
      PageAfterInRange(StepPage(current, steps[0], totalPages), steps[1..], totalPages);
    }
  }

  /** "Next" then "previous" comes back, unless "next" was refused on the
      last page. */
  lemma NextThenPrevious(current: int, totalPages: int)
    requires 1 <= current < totalPages
    ensures StepPage(StepPage(current, 1, totalPages), -1, totalPages) == current
  {
  }

  /** `changeImage(step)` on `n` images: past the end goes to 0, before the
      start goes to `n - 1`, otherwise the index moves by `step`. */
  function StepImage(index: int, step: int, n: nat): (r: int)
    ensures n > 0 ==> 0 <= r < n
    ensures 0 <= index + step < n ==> r == index + step
  {
    var next := index + step;
    if next >= n then 0 else if next < 0 then n - 1 else next
  }

  /** The wrap-around law for the arrow keys and buttons: a step of `+1` or
      `-1` from a valid index is that step modulo `n`. */
  lemma StepImageIsModular(index: int, step: int, n: nat)
    requires 0 <= index < n
    requires step == 1 || step == -1
    ensures StepImage(index, step, n) == (index + step) % n
  {
    if index + step == n {
      ModUnique(index + step, n, 1, 0);
    } else if index + step == -1 {
      ModUnique(index + step, n, -1, n - 1);
    } else {
      ModUnique(index + step, n, 0, index + step);
    }
  }

  /** Forward from the last image comes back to the first, and backward from
      the first goes to the last. */
  lemma WrapAround(n: nat)
    requires n > 0
    ensures StepImage(n - 1, 1, n) == 0
    ensures StepImage(0, -1, n) == n - 1
  {
  }

  /** "Previous" undoes "next", wrap-around included. */
  lemma NextThenPreviousImage(index: int, n: nat)
    requires 0 <= index < n
    ensures StepImage(StepImage(index, 1, n), -1, n) == index
  {
  }

  /** The index reached after `m` presses of "next". */
  function ForwardBy(index: int, m: nat, n: nat): int
    decreases m
  {
    if m == 0 then index else StepImage(ForwardBy(index, m - 1, n), 1, n)
  }

  /** Pressing "next" `m` times moves the index by `m` modulo `n`; so `n`
      presses visit every image once and return to the start. */
  lemma {:induction false} ForwardByIsModular(index: int, m: nat, n: nat)
    requires 0 <= index < n
    ensures ForwardBy(index, m, n) == (index + m) % n
    decreases m
  {
    if m == 0 {
      ModUnique(index, n, 0, index);
    } else {
      ForwardByIsModular(index, m - 1, n);
      var prev := ForwardBy(index, m - 1, n);
      StepImageIsModular(prev, 1, n);
      ModSucc(index + m - 1, n);
    }
  }

  /** Euclidean division is determined by its quotient-remainder equation. */
  lemma ModUnique(x: int, n: nat, q: int, r: int)
    requires n > 0 && x == q * n + r && 0 <= r < n
    ensures x % n == r
  {
    var q', r' := x / n, x % n;
    assert x == q' * n + r';
    if q' < q {
      assert (q' + 1) * n == q' * n + n;
      MulMonotone(q' + 1, q, n);
    } else if q' > q {
      assert (q + 1) * n == q * n + n;
      MulMonotone(q + 1, q', n);
    }
  }

  lemma ModSucc(a: int, n: nat)
    requires n > 0
    ensures (a % n + 1) % n == (a + 1) % n
  {
    var q, r := a / n, a % n;
    assert a == q * n + r;
    if r + 1 == n {
      ModUnique(r + 1, n, 1, 0);
      assert a + 1 == (q + 1) * n + 0 by {
        assert (q + 1) * n == q * n + n;
      }
      ModUnique(a + 1, n, q + 1, 0);
    } else {
      ModUnique(r + 1, n, 0, r + 1);
      ModUnique(a + 1, n, q, r + 1);
    }
  }
}
