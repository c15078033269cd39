// String helpers shared by the SQL builders: Python's `sep.join(items)`, the
// "append item and separator, then trim the last separator" idiom, splitting,
// and counting a character.
module Text {

  /** `sep.join(items)` in Python. */
  function Join(items: seq<string>, sep: string): string
  {
    if |items| == 0 then ""
    else if |items| == 1 then items[0]
    else items[0] + sep + Join(items[1..], sep)
  }

  /** What a loop `for x in items: acc += x + sep` adds to `acc`. */
  function Terminated(items: seq<string>, sep: string): string
  {
    if |items| == 0 then ""
    else Terminated(items[..|items| - 1], sep) + items[|items| - 1] + sep
  }

  lemma TerminatedSnoc(items: seq<string>, x: string, sep: string)
    ensures Terminated(items + [x], sep) == Terminated(items, sep) + x + sep
  {
    assert (items + [x])[..|items|] == items;
  }

  lemma {:induction false} JoinSnoc(items: seq<string>, x: string, sep: string)
    requires |items| > 0
    ensures Join(items + [x], sep) == Join(items, sep) + sep + x
  {
    if |items| == 1 {
      assert items + [x] == [items[0], x];
      assert (items + [x])[1..] == [x];
    } else {
      assert (items + [x])[1..] == items[1..] + [x];
      JoinSnoc(items[1..], x, sep);
    }
  }

  /** Trimming the last separator off the accumulated text gives exactly the join. */
  lemma {:induction false} TerminatedIsJoin(items: seq<string>, sep: string)
    requires |items| > 0
    ensures Terminated(items, sep) == Join(items, sep) + sep
  {
    var n := |items|;
    if n == 1 {
      assert items[..0] == [];
    } else {
      var init := items[..n - 1];
      TerminatedIsJoin(init, sep);
      assert init + [items[n - 1]] == items;
      JoinSnoc(init, items[n - 1], sep);
    }
  }

  /** Splits `s` at every occurrence of `sep`, scanning from the left. */
  function Split(s: string, sep: string): (r: seq<string>)
    requires |sep| > 0
    ensures |r| > 0
    decreases |s|
  {
    if |s| < |sep| then [s]
    else if s[..|sep|] == sep then [""] + Split(s[|sep|..], sep)
    else
      var rest := Split(s[1..], sep);
      [[s[0]] + rest[0]] + rest[1..]
  }

  /** `x` does not contain the first character of `sep`, hence no occurrence of `sep`. */
  predicate FreeOf(x: string, sep: string)
    requires |sep| > 0
  {
    forall i :: 0 <= i < |x| ==> x[i] != sep[0]
  }

  lemma FreeOfAbsent(x: string, sep: string)
    requires |sep| > 0 && sep[0] !in x
    ensures FreeOf(x, sep)
  {
    assert forall i :: 0 <= i < |x| ==> x[i] in x;
  }

  lemma FreeOfAppend(a: string, b: string, sep: string)
    requires |sep| > 0
    ensures FreeOf(a + b, sep) <==> FreeOf(a, sep) && FreeOf(b, sep)
  {
    if FreeOf(a, sep) && FreeOf(b, sep) {
      forall i | 0 <= i < |a + b| ensures (a + b)[i] != sep[0] {
        if i >= |a| { assert (a + b)[i] == b[i - |a|]; }
      }
    }
    if FreeOf(a + b, sep) {
      forall i | 0 <= i < |a| ensures a[i] != sep[0] {
        assert (a + b)[i] == a[i];
      }
      forall i | 0 <= i < |b| ensures b[i] != sep[0] {
        assert (a + b)[|a| + i] == b[i];
      }
    }
  }

  /** Dropping a separator appended to a text gives the text back. */
  lemma DropSeparator(text: string, sep: string)
    ensures (text + sep)[..|text|] == text
  {
  }

  lemma {:induction false} SplitSingle(x: string, sep: string)
    requires |sep| > 0 && FreeOf(x, sep)
    ensures Split(x, sep) == [x]
    decreases |x|
  {
    if |x| >= |sep| {
      assert x[..|sep|][0] == x[0];
      SplitSingle(x[1..], sep);
      assert [x[0]] + x[1..] == x;
    }
  }

  lemma {:induction false} SplitAfter(x: string, sep: string, y: string)
    requires |sep| > 0 && FreeOf(x, sep)
    ensures Split(x + sep + y, sep) == [x] + Split(y, sep)
    decreases |x|
  {
    var s := x + sep + y;
    if |x| == 0 {
      assert s[..|sep|] == sep;
      assert s[|sep|..] == y;
    } else {
      assert s[..|sep|][0] == x[0];
      assert s[1..] == x[1..] + sep + y;
      SplitAfter(x[1..], sep, y);
      assert [x[0]] + x[1..] == x;
    }
  }

  /** Splitting a join gives the items back when no item contains the separator. */
  lemma {:induction false} SplitJoin(items: seq<string>, sep: string)
    requires |items| > 0 && |sep| > 0
    requires forall k :: 0 <= k < |items| ==> FreeOf(items[k], sep)
    ensures Split(Join(items, sep), sep) == items
  {
    if |items| == 1 {
      SplitSingle(items[0], sep);
    } else {
      SplitAfter(items[0], sep, Join(items[1..], sep));
      SplitJoin(items[1..], sep);
    }
  }

  /** Number of occurrences of character `c` in `s`. */
  function CountChar(s: string, c: char): (n: nat)
    ensures n <= |s|
  {
    if |s| == 0 then 0
    else (if s[0] == c then 1 else 0) + CountChar(s[1..], c)
  }

  lemma {:induction false} CountCharAppend(a: string, b: string, c: char)
    ensures CountChar(a + b, c) == CountChar(a, c) + CountChar(b, c)
  {
    if |a| > 0 {
      assert (a + b)[1..] == a[1..] + b;
      CountCharAppend(a[1..], b, c);
    } else {
      assert a + b == b;
    }
  }

  /** A text without the character `c` counts none of it. */
  lemma {:induction false} CountCharAbsent(s: string, c: char)
    requires c !in s
    ensures CountChar(s, c) == 0
  {
    if |s| > 0 {
      assert s[0] in s;
      assert forall x :: x in s[1..] ==> x in s;
      CountCharAbsent(s[1..], c);
    }
  }

  /** Joining items that each hold `m` copies of `c` with a separator free of
      `c` gives `m` copies per item. */
  lemma {:induction false} CountJoin(items: seq<string>, sep: string, c: char, m: nat)
    requires c !in sep
    requires forall i :: 0 <= i < |items| ==> CountChar(items[i], c) == m
    ensures CountChar(Join(items, sep), c) == m * |items|
  {
    var n := |items|;
    if n > 1 {
      var rest := items[1..];
      assert forall i :: 0 <= i < |rest| ==> rest[i] == items[i + 1];
      CountJoin(rest, sep, c, m);
      CountCharAbsent(sep, c);
      CountCharAppend(items[0] + sep, Join(rest, sep), c);
      CountCharAppend(items[0], sep, c);
      MulStep(m, n);
    } else if n == 1 {
      MulStep(m, 1);
    }
  }

  lemma MulStep(m: nat, n: nat)
    requires n > 0
    ensures m * n == m + m * (n - 1)
  {
  }
}
