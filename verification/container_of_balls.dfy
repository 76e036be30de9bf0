/**
 * `organizingContainers` of python/container_of_balls.py. Row `i` of the
 * input is container `i`, column `j` the balls of colour `j`; swaps keep
 * every container's size, so the containers can be sorted by colour exactly
 * when the container sizes and the colour totals are the same multiset.
 */
module ContainerOfBalls {
  import opened Wrappers
  import Sorting

  function Sum(s: seq<int>): int
  {
    if |s| == 0 then 0 else Sum(s[..|s| - 1]) + s[|s| - 1]
  }

  /** The amount in column `j` of `row`, 0 past its end. */
  function At(row: seq<int>, j: int): int
  {
    if 0 <= j < |row| then row[j] else 0
  }

  /** The number of balls of colour `j` over all containers. */
  function ColumnSum(c: seq<seq<int>>, j: int): int
  {
    if |c| == 0 then 0 else ColumnSum(c[..|c| - 1], j) + At(c[|c| - 1], j)
  }

  /** `container_size`: the size of each container. */
  function RowSums(c: seq<seq<int>>): (r: seq<int>)
    ensures |r| == |c| && forall i :: 0 <= i < |c| ==> r[i] == Sum(c[i])
  {
    seq(|c|, i requires 0 <= i < |c| => Sum(c[i]))
  }

  /** `num_balls_by_color`: the total of each of the `n` colours. */
  function ColumnSums(c: seq<seq<int>>, n: nat): (r: seq<int>)
    ensures |r| == n && forall j :: 0 <= j < n ==> r[j] == ColumnSum(c, j)
  {
    seq(n, j => ColumnSum(c, j))
  }

  /** Every container lists at most `n` colours. */
  predicate Narrow(c: seq<seq<int>>, n: nat)
  {
    forall i :: 0 <= i < |c| ==> |c[i]| <= n
  }

  lemma {:induction false} SumPlus(a: seq<int>, b: seq<int>, s: seq<int>)
    requires |a| == |b| == |s| && forall i :: 0 <= i < |s| ==> s[i] == a[i] + b[i]
    ensures Sum(s) == Sum(a) + Sum(b)
  {
    if |s| > 0 {
      var k := |s| - 1;
      SumPlus(a[..k], b[..k], s[..k]);
    }
  }

  /** A row padded with zeros to `n` colours sums to the row's own sum. */
  lemma {:induction false} Padded(row: seq<int>, n: nat)
    requires |row| <= n
    ensures Sum(seq(n, j => At(row, j))) == Sum(row)
  {
    var p := seq(n, j => At(row, j));
    if n > |row| {
      Padded(row, n - 1);
      assert p[..n - 1] == seq(n - 1, j => At(row, j));
    } else if n > 0 {
      Padded(row[..n - 1], n - 1);
      assert p[..n - 1] == seq(n - 1, j => At(row[..n - 1], j));
    }
  }

  /** Every ball is counted once by container and once by colour: the two totals agree. */
  lemma {:induction false} TotalsAgree(c: seq<seq<int>>, n: nat)
    requires Narrow(c, n)
    ensures Sum(RowSums(c)) == Sum(ColumnSums(c, n))
  {
    if |c| > 0 {
      var k := |c| - 1;
      var row := c[k];
      TotalsAgree(c[..k], n);
      assert RowSums(c)[..k] == RowSums(c[..k]);
      SumPlus(ColumnSums(c[..k], n), seq(n, j => At(row, j)), ColumnSums(c, n));
      Padded(row, n);
    } else {
      SumZeros(ColumnSums(c, n));
    }
  }

  lemma {:induction false} SumZeros(s: seq<int>)
    requires forall i :: 0 <= i < |s| ==> s[i] == 0
    ensures Sum(s) == 0
  {
    if |s| > 0 {
      SumZeros(s[..|s| - 1]);
    }
  }

  /**
   * `organizingContainers`: an `IndexError` when a container lists more
   * colours than there are containers; otherwise "Possible" exactly when
   * the container sizes and the colour totals are the same multiset.
   */
  method OrganizingContainers(c: seq<seq<int>>) returns (r: Result<string, string>)
    ensures r.Ok? <==> Narrow(c, |c|)
    ensures r.Ok? ==> (r.value == "Possible" || r.value == "Impossible")
    ensures r.Ok? ==> (r.value == "Possible" <==> multiset(RowSums(c)) == multiset(ColumnSums(c, |c|)))
  {
    var n := |c|;
    var sizes := seq(n, _ => 0);
    var colors := seq(n, _ => 0);
    var ci := 0;
    while ci < n
      invariant 0 <= ci <= n && Narrow(c[..ci], n)
      invariant |sizes| == n && forall i :: 0 <= i < n ==> sizes[i] == if i < ci then Sum(c[i]) else 0
      invariant colors == ColumnSums(c[..ci], n)
    {
      var ok;
      ok, sizes, colors := AddContainer(c, ci, sizes, colors);
      if !ok {
        return Err("list index out of range");
      }
      assert c[..ci + 1][..ci] == c[..ci];
      ci := ci + 1;
    }
    assert c[..ci] == c;
    assert sizes == RowSums(c);
    var sortedSizes := Sorting.Sort(sizes);
    var sortedColors := Sorting.Sort(colors);
    if sortedSizes == sortedColors {
      r := Ok("Possible");
    } else {
      r := Ok("Impossible");
    }
    if multiset(sizes) == multiset(colors) {
      Sorting.SortOfPermutation(sizes, colors);
    }
  }

  /** The inner loop: add container `ci`'s amounts to its size and to each colour's total. */
  method AddContainer(c: seq<seq<int>>, ci: nat, sizes: seq<int>, colors: seq<int>)
    returns (ok: bool, sizes': seq<int>, colors': seq<int>)
    requires ci < |c| && |sizes| == |c| && sizes[ci] == 0 && colors == ColumnSums(c[..ci], |c|)
    ensures ok <==> |c[ci]| <= |c|
    ensures ok ==> |sizes'| == |c| && colors' == ColumnSums(c[..ci + 1], |c|)
    ensures ok ==> forall i :: 0 <= i < |c| ==> sizes'[i] == if i == ci then Sum(c[ci]) else sizes[i]
  {
    var n := |c|;
    var row := c[ci];
    sizes', colors' := sizes, colors;
    var cj := 0;
    while cj < |row|
      invariant 0 <= cj <= |row| && cj <= n
      invariant |sizes'| == n && sizes'[ci] == Sum(row[..cj])
      invariant forall i :: 0 <= i < n && i != ci ==> sizes'[i] == sizes[i]
      invariant |colors'| == n && forall j :: 0 <= j < n ==> colors'[j] == ColumnSum(c[..ci], j) + (if j < cj then row[j] else 0)
    {
      assert row[..cj + 1][..cj] == row[..cj];
      sizes' := sizes'[ci := sizes'[ci] + row[cj]];
      if cj >= n {
        return false, sizes', colors';
      }
      colors' := colors'[cj := colors'[cj] + row[cj]];
      cj := cj + 1;
    }
    assert row[..cj] == row;
    assert c[..ci + 1][..ci] == c[..ci];
    return true, sizes', colors';
  }
}
