/** String helpers the renderer and the sort rely on. */
module Text {

  /** The items joined by `sep`: the text `write_separated` produces. */
  function Join(xs: seq<string>, sep: string): string
  {
    if |xs| == 0 then ""
    else if |xs| == 1 then xs[0]
    else Join(xs[..|xs| - 1], sep) + sep + xs[|xs| - 1]
  }

  /** The texts of the items, one after another. */
  function Concat<T>(xs: seq<T>, f: T -> string): string
  {
    if xs == [] then "" else Concat(xs[..|xs| - 1], f) + f(xs[|xs| - 1])
  }

  /** One more item adds its text after those of the items before it. */
  lemma ConcatPrefix<T>(xs: seq<T>, i: nat, f: T -> string)
    requires i < |xs|
    ensures Concat(xs[..i + 1], f) == Concat(xs[..i], f) + f(xs[i])
  {
    assert xs[..i + 1][..i] == xs[..i];
  }

  lemma ConcatOne<T>(x: T, f: T -> string)
    ensures Concat([x], f) == f(x)
  {
    assert [x][..0] == [];
  }

  /** The text of two item lists back to back is the first's text, then the second's. */
  lemma {:induction false} ConcatAppend<T>(a: seq<T>, b: seq<T>, f: T -> string)
    ensures Concat(a + b, f) == Concat(a, f) + Concat(b, f)
    decreases |b|
  {
    if b == [] {
      assert a + b == a;
    } else {
      var init := b[..|b| - 1];
      assert (a + b)[..|a + b| - 1] == a + init;
      ConcatAppend(a, init, f);
    }
  }

  /** Total length of a sequence of strings. */
  function TotalLength(xs: seq<string>): nat
  {
    if xs == [] then 0 else |xs[0]| + TotalLength(xs[1..])
  }

  /** No leading separator: the joined text starts with the first item. */
  lemma {:induction false} JoinFront(x: string, xs: seq<string>, sep: string)
    requires |xs| > 0
    ensures Join([x] + xs, sep) == x + sep + Join(xs, sep)
  {
    if |xs| > 1 {
      var last := xs[|xs| - 1];
      assert ([x] + xs)[..|xs|] == [x] + xs[..|xs| - 1];
      JoinFront(x, xs[..|xs| - 1], sep);
    } else {
      assert [x] + xs == [x, xs[0]];
    }
  }

  /** One separator before each item but the first. */
  function SepThen(sep: string): string -> string
  {
    x => sep + x
  }

  /**
   * The joined text is the first item followed by each later item with
   * one separator in front: no leading, no trailing separator, one per gap.
   */
  lemma {:induction false} JoinInterleaved(xs: seq<string>, sep: string)
    requires |xs| > 0
    ensures Join(xs, sep) == xs[0] + Concat(xs[1..], SepThen(sep))
    decreases |xs|
  {
    if |xs| == 1 {
      assert xs[1..] == [];
    } else {
      var init := xs[..|xs| - 1];
      var last := xs[|xs| - 1];
      JoinInterleaved(init, sep);
      assert xs[1..][..|xs[1..]| - 1] == init[1..];
      assert xs[1..][|xs[1..]| - 1] == last;
      assert init[0] == xs[0];
      calc {
        Join(xs, sep);
        Join(init, sep) + sep + last;
        (xs[0] + Concat(init[1..], SepThen(sep))) + (sep + last);
        xs[0] + (Concat(init[1..], SepThen(sep)) + SepThen(sep)(last));
        xs[0] + Concat(xs[1..], SepThen(sep));
      }
    }
  }

  lemma {:induction false} TotalLengthSnoc(xs: seq<string>, y: string)
    ensures TotalLength(xs + [y]) == TotalLength(xs) + |y|
  {
    if xs != [] {
      assert (xs + [y])[1..] == xs[1..] + [y];
      TotalLengthSnoc(xs[1..], y);
    }
  }

  /** The joined text is as long as the items plus one separator per gap. */
  lemma {:induction false} JoinLength(xs: seq<string>, sep: string)
    requires |xs| > 0
    ensures |Join(xs, sep)| == TotalLength(xs) + (|xs| - 1) * |sep|
  {
    if |xs| == 1 {
      assert xs == [] + [xs[0]];
      TotalLengthSnoc([], xs[0]);
    } else {
      var init := xs[..|xs| - 1];
      JoinLength(init, sep);
      assert xs == init + [xs[|xs| - 1]];
      TotalLengthSnoc(init, xs[|xs| - 1]);
    }
  }

  /** ASCII lower-casing of one character. */
  function LowerChar(c: char): (d: char)
    ensures 'A' <= c <= 'Z' ==> 'a' <= d <= 'z'
    ensures !('A' <= c <= 'Z') ==> d == c
  {
    if 'A' <= c <= 'Z' then (c as int + 32) as char else c
  }

  /** ASCII lower-casing of a string, character by character. */
  function Lower(s: string): (r: string)
    ensures |r| == |s|
    ensures forall i :: 0 <= i < |s| ==> r[i] == LowerChar(s[i])
  {
    if s == [] then [] else [LowerChar(s[0])] + Lower(s[1..])
  }

  /** Lexicographic order on character sequences, the order `str::cmp` gives. */
  predicate LexLe(a: string, b: string)
  {
    if a == [] then true
    else if b == [] then false
    else a[0] < b[0] || (a[0] == b[0] && LexLe(a[1..], b[1..]))
  }

  lemma {:induction false} LexLeTotal(a: string, b: string)
    ensures LexLe(a, b) || LexLe(b, a)
  {
    if a != [] && b != [] && a[0] == b[0] {
      LexLeTotal(a[1..], b[1..]);
    }
  }

  lemma {:induction false} LexLeTrans(a: string, b: string, c: string)
    requires LexLe(a, b) && LexLe(b, c)
    ensures LexLe(a, c)
  {
    if a != [] && b != [] && c != [] && a[0] == b[0] == c[0] {
      LexLeTrans(a[1..], b[1..], c[1..]);
    }
  }

  lemma {:induction false} LexLeAntisym(a: string, b: string)
    requires LexLe(a, b) && LexLe(b, a)
    ensures a == b
  {
    if a != [] && b != [] {
      LexLeAntisym(a[1..], b[1..]);
      assert a == [a[0]] + a[1..];
      assert b == [b[0]] + b[1..];
    }
  }
}
