/** Bracketed, comma-separated rendering, the textual form every collection prints:
    `[]` when empty, else `[a, b, c]`. */
module Text {

  /** The textual form of each element, in order (Java's `String.valueOf` per element). */
  function Shown<T>(xs: seq<T>, show: T -> string): (parts: seq<string>)
    ensures |parts| == |xs|
    ensures forall i :: 0 <= i < |xs| ==> parts[i] == show(xs[i])
  {
    seq(|xs|, i requires 0 <= i < |xs| => show(xs[i]))
  }

  /** `parts` separated by ", ". */
  function Join(parts: seq<string>): string {
    if |parts| == 0 then ""
    else if |parts| == 1 then parts[0]
    else parts[0] + ", " + Join(parts[1..])
  }

  /** The reference rendering: `[` + the elements joined by `, ` + `]`. */
  function Render<T>(xs: seq<T>, show: T -> string): string {
    "[" + Join(Shown(xs, show)) + "]"
  }

  /** Every part followed by ", " (what a StringBuilder holds before its trailing separator
      is cut off). */
  function Terminated(parts: seq<string>): string {
    if |parts| == 0 then "" else parts[0] + ", " + Terminated(parts[1..])
  }

  lemma {:induction false} TerminatedAppend(p: seq<string>, q: seq<string>)
    ensures Terminated(p + q) == Terminated(p) + Terminated(q)
    decreases |p|
  {
    if |p| == 0 {
      assert p + q == q;
    } else {
      assert (p + q)[1..] == p[1..] + q;
      TerminatedAppend(p[1..], q);
    }
  }

  /** Appending every part but the last with its separator, then the last one bare, gives
      the joined form. */
  lemma {:induction false} TerminatedThenLast(p: seq<string>, last: string)
    ensures Terminated(p) + last == Join(p + [last])
    decreases |p|
  {
    if |p| == 0 {
      assert p + [last] == [last];
    } else {
      assert (p + [last])[1..] == p[1..] + [last];
      TerminatedThenLast(p[1..], last);
    }
  }

  /** A separator-terminated non-empty list is the joined form plus one trailing ", ". */
  lemma {:induction false} TerminatedIsJoinPlusSeparator(p: seq<string>)
    requires |p| > 0
    ensures Terminated(p) == Join(p) + ", "
    decreases |p|
  {
    if |p| == 1 {
      assert Terminated(p[1..]) == "";
    } else {
      TerminatedIsJoinPlusSeparator(p[1..]);
      assert Terminated(p) == p[0] + ", " + (Join(p[1..]) + ", ");
    }
  }

  lemma ShownAppend<T>(a: seq<T>, b: seq<T>, show: T -> string)
    ensures Shown(a + b, show) == Shown(a, show) + Shown(b, show)
  {
  }

  /** One more part, followed by its separator. */
  lemma TerminatedSnoc(p: seq<string>, x: string)
    ensures Terminated(p + [x]) == Terminated(p) + x + ", "
  {
    TerminatedAppend(p, [x]);
    assert Terminated([x]) == x + ", " + Terminated([]);
  }

  /** One more element rendered with its separator. */
  lemma RenderStep<T>(a: seq<T>, i: int, show: T -> string)
    requires 0 <= i < |a|
    ensures Terminated(Shown(a[..i + 1], show))
         == Terminated(Shown(a[..i], show)) + show(a[i]) + ", "
  {
    assert Shown(a[..i + 1], show) == Shown(a[..i], show) + [show(a[i])];
    TerminatedSnoc(Shown(a[..i], show), show(a[i]));
  }

  /** Every element but the last with its separator, then the last one bare. */
  lemma RenderLast<T>(a: seq<T>, show: T -> string)
    requires |a| > 0
    ensures Terminated(Shown(a[..|a| - 1], show)) + show(a[|a| - 1])
         == Join(Shown(a, show))
  {
    var n := |a| - 1;
    assert Shown(a, show) == Shown(a[..n], show) + [show(a[n])];
    TerminatedThenLast(Shown(a[..n], show), show(a[n]));
  }
}
