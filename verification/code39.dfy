/**
  How the Code 39 drawer (the ZPL ^B3 field) turns a field into encoder
  input: the content goes to the encoder unchanged as Code 39 Extended, and
  the interpretation line is the content with its outer '*' delimiters
  trimmed and exactly one put back on each side.
 */
module Code39 {
  import opened BarcodeTypes

  /** A ^B3 field as the drawer reads it. */
  datatype Field = Field(
    content: string,
    moduleWidth: int,
    height: int,
    printInterpretationLine: bool,
    printInterpretationLineAboveCode: bool)

  predicate AllStars(s: string)
  {
    forall i :: 0 <= i < |s| ==> s[i] == '*'
  }

  /** Neither the first nor the last character of t is '*'. */
  predicate StarFreeEnds(t: string)
  {
    t == [] || (t[0] != '*' && t[|t| - 1] != '*')
  }

  /** String.TrimStart('*'): what is left after the leading run of '*'. */
  function TrimStart(s: string): (r: string)
    ensures |r| <= |s| && r == s[|s| - |r|..]
    ensures AllStars(s[..|s| - |r|])
    ensures r == [] || r[0] != '*'
  {
    if |s| > 0 && s[0] == '*' then
      var r := TrimStart(s[1..]);
      assert s[..|s| - |r|] == [s[0]] + s[1..][..|s| - 1 - |r|];
      r
    else s
  }

  /** String.TrimEnd('*'): what is left before the trailing run of '*'. */
  function TrimEnd(s: string): (r: string)
    ensures |r| <= |s| && r == s[..|r|]
    ensures AllStars(s[|r|..])
    ensures r == [] || r[|r| - 1] != '*'
  {
    if |s| > 0 && s[|s| - 1] == '*' then
      var r := TrimEnd(s[..|s| - 1]);
      assert s[|r|..] == s[..|s| - 1][|r|..] + [s[|s| - 1]];
      r
    else s
  }

  /**
    String.Trim('*'): the slice of s between its leading and its trailing run
    of '*', which neither starts nor ends with '*'; '*' inside it is kept.
   */
  function Trim(s: string): (r: string)
    ensures StarFreeEnds(r)
    ensures |r| <= |s|
  {
    TrimEnd(TrimStart(s))
  }

  lemma {:induction false} TrimStartSkips(a: string, u: string)
    requires AllStars(a) && (u == [] || u[0] != '*')
    ensures TrimStart(a + u) == u
    decreases |a|
  {
    if a != [] {
      assert (a + u)[1..] == a[1..] + u;
      TrimStartSkips(a[1..], u);
    } else {
      assert a + u == u;
    }
  }

  lemma {:induction false} TrimEndSkips(u: string, b: string)
    requires AllStars(b) && (u == [] || u[|u| - 1] != '*')
    ensures TrimEnd(u + b) == u
    decreases |b|
  {
    if b != [] {
      assert (u + b)[..|u + b| - 1] == u + b[..|b| - 1];
      TrimEndSkips(u, b[..|b| - 1]);
    } else {
      assert u + b == u;
    }
  }

  /**
    Trim's result is determined by the decomposition: whenever s is a run of
    '*', then t, then a run of '*', with t not starting or ending with '*',
    trimming s gives t.
   */
  lemma TrimUnique(a: string, t: string, b: string)
    requires AllStars(a) && AllStars(b) && StarFreeEnds(t)
    ensures Trim(a + t + b) == t
  {
    if t == [] {
      assert a + t + b == a + b;
      TrimStartSkips(a + b, []);
      assert a + b + [] == a + b;
    } else {
      assert a + t + b == a + (t + b);
      TrimStartSkips(a, t + b);
      TrimEndSkips(t, b);
    }
  }

  /** The interpretation line: the trimmed content between two '*'. */
  function Wrap(s: string): (r: string)
    ensures |r| >= 2 && r[0] == '*' && r[|r| - 1] == '*'
    ensures StarFreeEnds(r[1..|r| - 1])
    ensures r[1..|r| - 1] == Trim(s)
  {
    "*" + Trim(s) + "*"
  }

  lemma TrimStartSplit(s: string) returns (a: string)
    ensures s == a + TrimStart(s) && AllStars(a)
  {
    var u := TrimStart(s);
    a := s[..|s| - |u|];
    assert s == a + s[|s| - |u|..];
  }

  lemma TrimEndSplit(u: string) returns (b: string)
    ensures u == TrimEnd(u) + b && AllStars(b)
  {
    var t := TrimEnd(u);
    b := u[|t|..];
    assert u == u[..|t|] + b;
  }

  /** The decomposition Trim relies on: s is a run of '*', Trim(s), a run of '*'. */
  lemma TrimSplit(s: string) returns (a: string, b: string)
    ensures s == a + Trim(s) + b && AllStars(a) && AllStars(b)
  {
    a := TrimStartSplit(s);
    b := TrimEndSplit(TrimStart(s));
  }

  /** Wrapping an interpretation line again gives the same line. */
  lemma WrapIdempotent(s: string)
    ensures Wrap(Wrap(s)) == Wrap(s)
  {
    TrimUnique("*", Trim(s), "*");
  }

  function Stars(n: nat): (r: string)
    ensures |r| == n && AllStars(r)
  {
    seq(n, _ => '*')
  }

  lemma StarRunsJoin(x: string, y: string)
    requires AllStars(x) && AllStars(y)
    ensures AllStars(x + y)
  {
    forall i | 0 <= i < |x + y| ensures (x + y)[i] == '*' {
      if i >= |x| {
        assert (x + y)[i] == y[i - |x|];
      }
    }
  }

  /** Sequence concatenation regrouped, kept apart so the trim proof stays small. */
  lemma Regroup(x: string, a: string, t: string, b: string, y: string)
    ensures x + (a + t + b) + y == (x + a) + t + (b + y)
  {
  }

  /** Trimming ignores any extra '*' around the content. */
  lemma TrimIgnoresOuterStars(x: string, s: string, y: string)
    requires AllStars(x) && AllStars(y)
    ensures Trim(x + s + y) == Trim(s)
  {
    var a, b := TrimSplit(s);
    StarRunsJoin(x, a);
    StarRunsJoin(b, y);
    Regroup(x, a, Trim(s), b, y);
    TrimUnique(x + a, Trim(s), b + y);
  }

  /** However many '*' surround the content, the interpretation line is the same. */
  lemma WrapIgnoresOuterStars(m: nat, s: string, n: nat)
    ensures Wrap(Stars(m) + s + Stars(n)) == Wrap(s)
  {
    TrimIgnoresOuterStars(Stars(m), s, Stars(n));
  }

  /** The interpretation line is `**` exactly when the content is empty or all '*'. */
  lemma WrapOfStarsOnly(s: string)
    ensures Wrap(s) == "**" <==> AllStars(s)
  {
    if AllStars(s) {
      TrimUnique(s, [], []);
      assert s + [] + [] == s;
    }
    if Wrap(s) == "**" {
      var a, b := TrimSplit(s);
      assert Trim(s) == [] by {
        assert Wrap(s)[1..|Wrap(s)| - 1] == [];
      }
      assert s == a + b;
      forall i | 0 <= i < |s| ensures s[i] == '*' {
        if i >= |a| {
          assert s[i] == b[i - |a|];
        }
      }
    }
  }

  /**
    Text that neither starts nor ends with '*' is printed between two '*'
    exactly as it is, interior '*' included, whether or not the content
    already carried the two delimiters.
   */
  lemma WrapKeepsInteriorStars(t: string)
    requires StarFreeEnds(t)
    ensures Wrap(t) == "*" + t + "*"
    ensures Wrap("*" + t + "*") == "*" + t + "*"
  {
    TrimOfStarFreeEnds(t);
    TrimOfWrapped(t);
  }

  lemma TrimOfStarFreeEnds(t: string)
    requires StarFreeEnds(t)
    ensures Trim(t) == t
  {
    TrimUnique([], t, []);
    assert [] + t + [] == t;
  }

  lemma TrimOfWrapped(t: string)
    requires StarFreeEnds(t)
    ensures Trim("*" + t + "*") == t
  {
    TrimUnique("*", t, "*");
  }

  /**
    One draw of a ^B3 field: the content is encoded as it is with Code 39
    Extended, the interpretation line is wrapped, and the label height is
    added to the field height for the encoder, while DrawBarcode gets the
    field height itself.
   */
  function Draw(f: Field, fontHeight: int): (r: Render)
    ensures r.symbology == Code39Extended && r.content == f.content
    ensures r.alternateLabel == Wrap(f.content)
    ensures r.includeLabel == f.printInterpretationLine && r.barWidth == f.moduleWidth
    ensures r.drawHeight == f.height
    ensures r.encoderHeight - r.layout.labelHeight == f.height
    ensures !f.printInterpretationLine ==> r.encoderHeight == f.height && r.layout.labelHeightOffset == 0
    ensures f.printInterpretationLine ==> r.layout.labelHeight == fontHeight
    ensures r.layout.labelHeightOffset == (if f.printInterpretationLineAboveCode then r.layout.labelHeight else 0)
  {
    var layout := Layout(f.printInterpretationLine, f.printInterpretationLineAboveCode, fontHeight);
    Render(Code39Extended, f.content, Wrap(f.content), f.printInterpretationLine, f.moduleWidth,
           f.height + layout.labelHeight, f.height, layout)
  }
}
