/**
  How the Code 128 drawer (the ZPL ^BC field) turns a field into encoder
  input: which Code 128 subset to use, the content to encode (FNC1 included)
  and the human-readable interpretation line, following the printer's
  invocation codes and the N, A, D and U modes.
 */
module Code128 {
  import opened BarcodeTypes

  /** FNC1 as the Code 128 encoder expects it: the character with code 200. */
  const FNC1: char := '\U{C8}'

  /** A ^BC field as the drawer reads it. A null Mode is written "". */
  datatype Field = Field(
    content: string,
    mode: string,
    moduleWidth: int,
    height: int,
    printInterpretationLine: bool,
    printInterpretationLineAboveCode: bool)

  /** The symbology, the content to encode and the interpretation line. */
  datatype Interpretation = Interpretation(symbology: Symbology, content: string, line: string)

  /** `>9`, `>:` and `>;` select start code A, B and C. */
  predicate IsStartToken(a: char, b: char)
  {
    a == '>' && (b == '9' || b == ':' || b == ';')
  }

  /** A start token begins at index i of s. */
  predicate TokenAt(s: string, i: int)
  {
    0 <= i < |s| - 1 && IsStartToken(s[i], s[i + 1])
  }

  // ---------------------------------------------------------------------------
  // Stray start-token filter: `(?<!^)>[9:;]` replaced by "".
  // ---------------------------------------------------------------------------

  /** Deletes every start token of t, scanning left to right. */
  function RemoveTokens(t: string): (r: string)
    ensures |r| <= |t|
  {
    if |t| < 2 then t
    else if IsStartToken(t[0], t[1]) then RemoveTokens(t[2..])
    else [t[0]] + RemoveTokens(t[1..])
  }

  /** One step of RemoveTokens at a start token: the token is dropped. */
  lemma RemoveTokensAtToken(t: string)
    requires |t| >= 2 && IsStartToken(t[0], t[1])
    ensures RemoveTokens(t) == RemoveTokens(t[2..])
  {
  }

  /** One step of RemoveTokens elsewhere: the first character is kept. */
  lemma RemoveTokensElsewhere(t: string)
    requires |t| >= 2 && !IsStartToken(t[0], t[1])
    ensures RemoveTokens(t) == [t[0]] + RemoveTokens(t[1..])
  {
  }

  lemma {:induction false} RemoveTokensOnlyDeletes(t: string)
    ensures multiset(RemoveTokens(t)) <= multiset(t)
  {
    if |t| >= 2 {
      if IsStartToken(t[0], t[1]) {
        RemoveTokensOnlyDeletes(t[2..]);
        RemoveTokensAtToken(t);
        assert t == t[..2] + t[2..];
      } else {
        RemoveTokensOnlyDeletes(t[1..]);
        RemoveTokensElsewhere(t);
        assert t == [t[0]] + t[1..];
      }
    }
  }

  lemma {:induction false} RemoveTokensRemovesPairs(t: string)
    ensures (|t| - |RemoveTokens(t)|) % 2 == 0
  {
    if |t| >= 2 {
      if IsStartToken(t[0], t[1]) {
        RemoveTokensRemovesPairs(t[2..]);
        RemoveTokensAtToken(t);
      } else {
        RemoveTokensRemovesPairs(t[1..]);
        RemoveTokensElsewhere(t);
      }
    }
  }

  /**
    The filtered content: the first character is kept whatever it is, and
    every start token beginning at index 1 or later is deleted.
   */
  function Normalize(s: string): (r: string)
    ensures |s| > 0 ==> |r| > 0 && r[0] == s[0]
    ensures |r| <= |s| && (|s| - |r|) % 2 == 0
    ensures multiset(r) <= multiset(s)
  {
    if |s| == 0 then s
    else
      RemoveTokensOnlyDeletes(s[1..]);
      RemoveTokensRemovesPairs(s[1..]);
      assert s == [s[0]] + s[1..];
      [s[0]] + RemoveTokens(s[1..])
  }

  /** Character i of s belongs to a start token that does not begin at index 0. */
  ghost predicate Stray(s: string, i: int)
  {
    1 <= i < |s| &&
    ((i + 1 < |s| && IsStartToken(s[i], s[i + 1])) || (2 <= i && IsStartToken(s[i - 1], s[i])))
  }

  /** The characters of s[k..] that are not Stray, in order. */
  ghost function Survivors(s: string, k: nat): string
    decreases |s| - k
  {
    if k >= |s| then [] else (if Stray(s, k) then [] else [s[k]]) + Survivors(s, k + 1)
  }

  /** Past a start token at k, the scan and the survivors both skip it. */
  lemma RemoveTokensFromToken(s: string, k: nat)
    requires 1 <= k && k + 1 < |s| && IsStartToken(s[k], s[k + 1])
    requires RemoveTokens(s[k + 2..]) == Survivors(s, k + 2)
    ensures RemoveTokens(s[k..]) == Survivors(s, k)
  {
    var t := s[k..];
    assert RemoveTokens(t) == RemoveTokens(s[k + 2..]) by {
      RemoveTokensAtToken(t);
      assert t[2..] == s[k + 2..];
    }
    assert Stray(s, k) && Stray(s, k + 1);
  }

  /** A character at k that is in no token is kept by the scan and survives. */
  lemma RemoveTokensFromKeep(s: string, k: nat)
    requires 1 <= k && k + 1 < |s| && !IsStartToken(s[k], s[k + 1])
    requires !(2 <= k && IsStartToken(s[k - 1], s[k]))
    requires RemoveTokens(s[k + 1..]) == Survivors(s, k + 1)
    ensures RemoveTokens(s[k..]) == Survivors(s, k)
  {
    var t := s[k..];
    assert RemoveTokens(t) == [s[k]] + RemoveTokens(s[k + 1..]) by {
      RemoveTokensElsewhere(t);
      assert t[1..] == s[k + 1..];
    }
    assert !Stray(s, k);
  }

  lemma {:induction false} RemoveTokensFrom(s: string, k: nat)
    requires 1 <= k <= |s|
    requires !(2 <= k < |s| && IsStartToken(s[k - 1], s[k]))
    ensures RemoveTokens(s[k..]) == Survivors(s, k)
    decreases |s| - k
  {
    if k == |s| {
      assert s[k..] == [];
    } else if k + 1 == |s| {
      assert !Stray(s, k);
      assert Survivors(s, k + 1) == [];
      assert s[k..] == [s[k]];
    } else if IsStartToken(s[k], s[k + 1]) {
      RemoveTokensFrom(s, k + 2);
      RemoveTokensFromToken(s, k);
    } else {
      RemoveTokensFrom(s, k + 1);
      RemoveTokensFromKeep(s, k);
    }
  }

  /**
    The filter deletes exactly the characters of start tokens that begin at
    index 1 or later and keeps every other character, in order.
   */
  lemma NormalizeDeletesExactlyStrayTokens(s: string)
    ensures Normalize(s) == Survivors(s, 0)
  {
    if |s| > 0 {
      assert !Stray(s, 0);
      RemoveTokensFrom(s, 1);
    }
  }

  /** s holds a start token beginning at index 1 or later. */
  ghost predicate HasStrayToken(s: string)
  {
    exists i :: 1 <= i && TokenAt(s, i)
  }

  /** t holds a start token anywhere. */
  ghost predicate HasToken(t: string)
  {
    exists i :: TokenAt(t, i)
  }

  /** Past a first pair that is no token, t holds a token exactly when t[1..] does. */
  lemma HasTokenPastFirst(t: string)
    requires |t| >= 2 && !IsStartToken(t[0], t[1])
    ensures HasToken(t) <==> HasToken(t[1..])
  {
    var u := t[1..];
    if HasToken(t) {
      var i :| TokenAt(t, i);
      assert u[i - 1] == t[i] && u[i] == t[i + 1];
      assert TokenAt(u, i - 1);
    }
    if HasToken(u) {
      var i :| TokenAt(u, i);
      assert t[i + 1] == u[i] && t[i + 2] == u[i + 1];
      assert TokenAt(t, i + 1);
    }
  }

  lemma {:induction false} RemoveTokensFixedPoints(t: string)
    ensures RemoveTokens(t) == t <==> !HasToken(t)
  {
    if |t| < 2 {
    } else if IsStartToken(t[0], t[1]) {
      RemoveTokensAtToken(t);
      assert HasToken(t) by {
        assert TokenAt(t, 0);
      }
    } else {
      RemoveTokensFixedPoints(t[1..]);
      RemoveTokensElsewhere(t);
      HasTokenPastFirst(t);
      assert t == [t[0]] + t[1..];
    }
  }

  lemma StrayTokenShiftsLeft(s: string)
    requires HasStrayToken(s)
    ensures HasToken(s[1..])
  {
    var u := s[1..];
    var i :| 1 <= i && TokenAt(s, i);
    assert u[i - 1] == s[i] && u[i] == s[i + 1];
    assert TokenAt(u, i - 1);
  }

  lemma TailTokenShiftsRight(s: string)
    requires |s| > 0 && HasToken(s[1..])
    ensures HasStrayToken(s)
  {
    var u := s[1..];
    var i :| TokenAt(u, i);
    assert u[i] == s[i + 1] && u[i + 1] == s[i + 2];
    assert TokenAt(s, i + 1);
  }

  /** A stray token of s is a token of s[1..], one place to the left. */
  lemma StrayTokenInTail(s: string)
    requires |s| > 0
    ensures HasStrayToken(s) <==> HasToken(s[1..])
  {
    if HasStrayToken(s) {
      StrayTokenShiftsLeft(s);
    }
    if HasToken(s[1..]) {
      TailTokenShiftsRight(s);
    }
  }

  /** The filter changes content exactly when it holds a stray start token. */
  lemma NormalizeFixedPoints(s: string)
    ensures Normalize(s) == s <==> !HasStrayToken(s)
  {
    if |s| > 0 {
      RemoveTokensFixedPoints(s[1..]);
      StrayTokenInTail(s);
      assert Normalize(s) == s <==> RemoveTokens(s[1..]) == s[1..] by {
        assert s == [s[0]] + s[1..];
      }
    }
  }

  /**
    The filter is a single pass: deleting a token can join a new one, which a
    second pass would delete.
   */
  lemma NormalizeNotIdempotent()
    ensures Normalize("A>>99") == "A>9" && Normalize("A>9") == "A"
  {
    FilterJoinsToken();
    FilterRemovesJoinedToken();
  }

  lemma FilterJoinsToken()
    ensures Normalize("A>>99") == "A>9"
  {
    DropTokenAfterGreater();
    assert "A>>99"[1..] == ">>99";
  }

  lemma DropTokenAfterGreater()
    ensures RemoveTokens(">>99") == ">9"
  {
    assert RemoveTokens(">99") == "9" by {
      RemoveTokensAtToken(">99");
      assert ">99"[2..] == "9";
    }
    RemoveTokensElsewhere(">>99");
    assert ">>99"[1..] == ">99";
  }

  lemma FilterRemovesJoinedToken()
    ensures Normalize("A>9") == "A"
  {
    assert RemoveTokens(">9") == [] by {
      RemoveTokensAtToken(">9");
      assert ">9"[2..] == [];
    }
    assert "A>9"[1..] == ">9";
  }

  // ---------------------------------------------------------------------------
  // Start code: `^(>[9:;])(.+)$` and the start-code map.
  // ---------------------------------------------------------------------------

  /** The start-code map: `>9` selects A, `>:` selects B and `>;` selects C. */
  function StartCodeSymbology(b: char): (r: Symbology)
    ensures r in {Code128A, Code128B, Code128C}
    ensures IsStartToken('>', b) ==>
      (r == Code128A <==> b == '9') && (r == Code128B <==> b == ':') && (r == Code128C <==> b == ';')
  {
    if b == '9' then Code128A else if b == ':' then Code128B else Code128C
  }

  /**
    The start-code pattern on the filtered content: a leading start token
    followed by a non-empty rest without line breaks, where a single final
    line break is allowed and is not part of the captured rest. On a match,
    the selected symbology and the rest.
   */
  function StartCodeMatch(s: string): (r: Option<(Symbology, string)>)
    ensures r.Some? ==> |s| >= 3 && IsStartToken(s[0], s[1]) && r.value.0 == StartCodeSymbology(s[1])
    ensures r.Some? ==> r.value.1 != [] && '\n' !in r.value.1 && (s[2..] == r.value.1 || s[2..] == r.value.1 + "\n")
    ensures |s| >= 3 && IsStartToken(s[0], s[1]) && '\n' !in s[2..] ==> r.Some?
    ensures |s| >= 4 && IsStartToken(s[0], s[1]) && s[|s| - 1] == '\n' && '\n' !in s[2..|s| - 1] ==> r.Some?
    ensures r.Some? ==> multiset(r.value.1) <= multiset(s)
  {
    if |s| < 3 || !IsStartToken(s[0], s[1]) then None
    else
      var rest := s[2..];
      if '\n' !in rest then
        SliceIsSubMultiset(s, 2, |s|);
        assert s[2..|s|] == rest;
        Some((StartCodeSymbology(s[1]), rest))
      else if |rest| >= 2 && rest[|rest| - 1] == '\n' && '\n' !in rest[..|rest| - 1] then
        assert rest == rest[..|rest| - 1] + "\n";
        assert rest[..|rest| - 1] == s[2..|s| - 1];
        SliceIsSubMultiset(s, 2, |s| - 1);
        Some((StartCodeSymbology(s[1]), rest[..|rest| - 1]))
      else None
  }

  lemma SliceIsSubMultiset(s: string, i: int, j: int)
    requires 0 <= i <= j <= |s|
    ensures multiset(s[i..j]) <= multiset(s)
  {
    assert s == s[..i] + s[i..j] + s[j..];
  }

  // ---------------------------------------------------------------------------
  // `>8`: String.Replace(">8", ...) is ordinal and scans left to right.
  // ---------------------------------------------------------------------------

  predicate IsGs1Escape(a: char, b: char)
  {
    a == '>' && b == '8'
  }

  /** A `>8` begins at index i of s. */
  predicate EscapeAt(s: string, i: int)
  {
    0 <= i < |s| - 1 && IsGs1Escape(s[i], s[i + 1])
  }

  /** Every `>8` of s, scanned left to right, replaced by `replacement`. */
  function ReplaceGs1(s: string, replacement: string): (r: string)
    ensures |replacement| <= 2 ==> |r| <= |s|
    ensures |replacement| == 2 ==> |r| == |s|
  {
    if |s| < 2 then s
    else if IsGs1Escape(s[0], s[1]) then replacement + ReplaceGs1(s[2..], replacement)
    else [s[0]] + ReplaceGs1(s[1..], replacement)
  }

  /** The number of positions of s where `>8` starts. */
  function Gs1Escapes(s: string): nat
  {
    if |s| < 2 then 0 else (if IsGs1Escape(s[0], s[1]) then 1 else 0) + Gs1Escapes(s[1..])
  }

  /** s has no `>8`. */
  predicate NoGs1Escape(s: string)
  {
    forall i :: 0 <= i < |s| ==> !EscapeAt(s, i)
  }

  /** s with every FNC1 deleted. */
  function DeleteFnc1(s: string): string
  {
    if s == [] then [] else (if s[0] == FNC1 then [] else [s[0]]) + DeleteFnc1(s[1..])
  }

  lemma {:induction false} ReplaceGs1Lengths(s: string)
    ensures |ReplaceGs1(s, [FNC1])| == |s| - Gs1Escapes(s)
    ensures |ReplaceGs1(s, [])| == |s| - 2 * Gs1Escapes(s)
  {
    if |s| < 2 {
    } else if IsGs1Escape(s[0], s[1]) {
      ReplaceGs1Lengths(s[2..]);
      assert Gs1Escapes(s[1..]) == Gs1Escapes(s[2..]) by {
        assert s[1..][1..] == s[2..];
      }
    } else {
      ReplaceGs1Lengths(s[1..]);
    }
  }

  /** One step of ReplaceGs1 at an escape: the escape becomes the replacement. */
  lemma ReplaceGs1AtEscape(s: string, replacement: string)
    requires |s| >= 2 && IsGs1Escape(s[0], s[1])
    ensures ReplaceGs1(s, replacement) == replacement + ReplaceGs1(s[2..], replacement)
    ensures Gs1Escapes(s) == 1 + Gs1Escapes(s[2..])
    ensures multiset(s) == multiset{'>', '8'} + multiset(s[2..])
  {
    assert s[1..][1..] == s[2..];
    assert s == [s[0], s[1]] + s[2..];
  }

  /** One step of ReplaceGs1 elsewhere: the first character is kept. */
  lemma ReplaceGs1Elsewhere(s: string, replacement: string)
    requires |s| >= 2 && !IsGs1Escape(s[0], s[1])
    ensures ReplaceGs1(s, replacement) == [s[0]] + ReplaceGs1(s[1..], replacement)
    ensures Gs1Escapes(s) == Gs1Escapes(s[1..])
    ensures multiset(s) == multiset{s[0]} + multiset(s[1..])
  {
    assert s == [s[0]] + s[1..];
  }

  lemma {:induction false} ReplaceGs1AddsFnc1(s: string)
    ensures multiset(ReplaceGs1(s, [FNC1]))[FNC1] == multiset(s)[FNC1] + Gs1Escapes(s)
  {
    if |s| >= 2 {
      if IsGs1Escape(s[0], s[1]) {
        ReplaceGs1AddsFnc1(s[2..]);
        ReplaceGs1AtEscape(s, [FNC1]);
      } else {
        ReplaceGs1AddsFnc1(s[1..]);
        ReplaceGs1Elsewhere(s, [FNC1]);
      }
    }
  }

  lemma {:induction false} ReplaceGs1Deletes(s: string)
    ensures multiset(ReplaceGs1(s, [])) <= multiset(s)
  {
    if |s| >= 2 {
      if IsGs1Escape(s[0], s[1]) {
        ReplaceGs1Deletes(s[2..]);
        ReplaceGs1AtEscape(s, []);
        assert [] + ReplaceGs1(s[2..], []) == ReplaceGs1(s[2..], []);
      } else {
        ReplaceGs1Deletes(s[1..]);
        ReplaceGs1Elsewhere(s, []);
      }
    }
  }

  lemma {:induction false} ReplaceGs1KeepsFnc1(s: string)
    ensures multiset(ReplaceGs1(s, []))[FNC1] == multiset(s)[FNC1]
  {
    if |s| >= 2 {
      if IsGs1Escape(s[0], s[1]) {
        ReplaceGs1KeepsFnc1(s[2..]);
        ReplaceGs1AtEscape(s, []);
        assert [] + ReplaceGs1(s[2..], []) == ReplaceGs1(s[2..], []);
      } else {
        ReplaceGs1KeepsFnc1(s[1..]);
        ReplaceGs1Elsewhere(s, []);
      }
    }
  }

  /**
    Each `>8` becomes exactly one FNC1 in the content, in its place, and
    disappears from the interpretation; every other character is kept in
    order, and no FNC1 is added to the interpretation.
   */
  lemma ReplaceGs1Counts(s: string)
    ensures |ReplaceGs1(s, [FNC1])| == |s| - Gs1Escapes(s)
    ensures |ReplaceGs1(s, [])| == |s| - 2 * Gs1Escapes(s)
    ensures multiset(ReplaceGs1(s, [FNC1]))[FNC1] == multiset(s)[FNC1] + Gs1Escapes(s)
    ensures multiset(ReplaceGs1(s, []))[FNC1] == multiset(s)[FNC1]
    ensures multiset(ReplaceGs1(s, [])) <= multiset(s)
    ensures ReplaceGs1(s, [FNC1]) == Gs1Pieces(s, 0, [FNC1])
    ensures ReplaceGs1(s, []) == Gs1Pieces(s, 0, [])
  {
    ReplaceGs1InPlace(s, [FNC1]);
    ReplaceGs1InPlace(s, []);
    ReplaceGs1Lengths(s);
    ReplaceGs1AddsFnc1(s);
    ReplaceGs1Deletes(s);
    ReplaceGs1KeepsFnc1(s);
  }

  /** Character k of s is the `8` of a `>8` that starts at k - 1. */
  ghost predicate EscapeTail(s: string, k: int)
  {
    1 <= k && EscapeAt(s, k - 1)
  }

  /**
    What the positions of s[k..] contribute, in order: the replacement where a
    `>8` starts, nothing for the `8` of that `>8`, and the character itself
    everywhere else.
   */
  ghost function Gs1Pieces(s: string, k: nat, replacement: string): string
    decreases |s| - k
  {
    if k >= |s| then []
    else
      (if EscapeAt(s, k) then replacement else if EscapeTail(s, k) then [] else [s[k]])
      + Gs1Pieces(s, k + 1, replacement)
  }

  /** At a `>8` starting at k, the scan and the pieces both emit the replacement and skip two. */
  lemma ReplaceGs1FromEscape(s: string, k: nat, replacement: string)
    requires EscapeAt(s, k)
    requires ReplaceGs1(s[k + 2..], replacement) == Gs1Pieces(s, k + 2, replacement)
    ensures ReplaceGs1(s[k..], replacement) == Gs1Pieces(s, k, replacement)
  {
    var t := s[k..];
    assert ReplaceGs1(t, replacement) == replacement + ReplaceGs1(s[k + 2..], replacement) by {
      ReplaceGs1AtEscape(t, replacement);
      assert t[2..] == s[k + 2..];
    }
    assert !EscapeAt(s, k + 1) && EscapeTail(s, k + 1);
  }

  /** A character at k that is in no `>8` is kept by the scan and by the pieces. */
  lemma ReplaceGs1FromKeep(s: string, k: nat, replacement: string)
    requires k + 1 < |s| && !EscapeAt(s, k) && !EscapeTail(s, k)
    requires ReplaceGs1(s[k + 1..], replacement) == Gs1Pieces(s, k + 1, replacement)
    ensures ReplaceGs1(s[k..], replacement) == Gs1Pieces(s, k, replacement)
  {
    var t := s[k..];
    assert ReplaceGs1(t, replacement) == [s[k]] + ReplaceGs1(s[k + 1..], replacement) by {
      ReplaceGs1Elsewhere(t, replacement);
      assert t[1..] == s[k + 1..];
    }
  }

  lemma {:induction false} ReplaceGs1From(s: string, k: nat, replacement: string)
    requires k <= |s| && !EscapeTail(s, k)
    ensures ReplaceGs1(s[k..], replacement) == Gs1Pieces(s, k, replacement)
    decreases |s| - k
  {
    if k == |s| {
      assert s[k..] == [];
    } else if k + 1 == |s| {
      assert !EscapeAt(s, k);
      assert Gs1Pieces(s, k + 1, replacement) == [];
      assert s[k..] == [s[k]];
    } else if EscapeAt(s, k) {
      ReplaceGs1From(s, k + 2, replacement);
      ReplaceGs1FromEscape(s, k, replacement);
    } else {
      ReplaceGs1From(s, k + 1, replacement);
      ReplaceGs1FromKeep(s, k, replacement);
    }
  }

  /**
    The replacement happens in place: each `>8` becomes the replacement where it
    stood, and every character outside a `>8` is kept, in its order.
   */
  lemma ReplaceGs1InPlace(s: string, replacement: string)
    ensures ReplaceGs1(s, replacement) == Gs1Pieces(s, 0, replacement)
  {
    ReplaceGs1From(s, 0, replacement);
    assert s[0..] == s;
  }

  /** `A>8B`: FNC1 takes the place of the `>8` in the content, and the line is `AB`. */
  lemma ReplaceGs1Example()
    ensures ReplaceGs1("A>8B", [FNC1]) == ['A', FNC1, 'B']
    ensures ReplaceGs1("A>8B", []) == "AB"
  {
    var s := "A>8B";
    assert s[1..] == ">8B" && s[1..][2..] == "B";
    assert ReplaceGs1(">8B", [FNC1]) == [FNC1] + "B";
    assert ReplaceGs1(">8B", []) == "B";
  }

  lemma {:induction false} ReplaceGs1Fnc1Head(s: string)
    ensures NoGs1Escape(ReplaceGs1(s, [FNC1]))
    ensures |s| > 0 ==> |ReplaceGs1(s, [FNC1])| > 0
    ensures |s| > 0 ==> (ReplaceGs1(s, [FNC1])[0] == '8' <==> s[0] == '8')
  {
    if |s| < 2 {
    } else if IsGs1Escape(s[0], s[1]) {
      ReplaceGs1Fnc1Head(s[2..]);
      var rest := ReplaceGs1(s[2..], [FNC1]);
      var r := [FNC1] + rest;
      assert ReplaceGs1(s, [FNC1]) == r;
      forall i ensures !EscapeAt(r, i) {
        if 0 < i < |r| - 1 {
          assert r[i] == rest[i - 1] && r[i + 1] == rest[i];
          assert !EscapeAt(rest, i - 1);
        }
      }
    } else {
      ReplaceGs1Fnc1Head(s[1..]);
      var rest := ReplaceGs1(s[1..], [FNC1]);
      var r := [s[0]] + rest;
      assert ReplaceGs1(s, [FNC1]) == r;
      forall i ensures !EscapeAt(r, i) {
        if 0 < i < |r| - 1 {
          assert r[i] == rest[i - 1] && r[i + 1] == rest[i];
          assert !EscapeAt(rest, i - 1);
        }
      }
    }
  }

  /** No `>8` is left in content where every `>8` became FNC1. */
  lemma EncodedHasNoGs1Escape(s: string)
    ensures NoGs1Escape(ReplaceGs1(s, [FNC1]))
  {
    ReplaceGs1Fnc1Head(s);
  }

  /**
    The interpretation is the content with its FNC1 characters deleted, as
    long as the field itself holds no FNC1.
   */
  lemma {:induction false} InterpretationIsContentWithoutFnc1(s: string)
    requires FNC1 !in s
    ensures DeleteFnc1(ReplaceGs1(s, [FNC1])) == ReplaceGs1(s, [])
  {
    if |s| < 2 {
      if |s| == 1 {
        assert DeleteFnc1(s[1..]) == [];
      }
    } else if IsGs1Escape(s[0], s[1]) {
      assert FNC1 !in s[2..];
      InterpretationIsContentWithoutFnc1(s[2..]);
      assert ([FNC1] + ReplaceGs1(s[2..], [FNC1]))[1..] == ReplaceGs1(s[2..], [FNC1]);
    } else {
      assert FNC1 !in s[1..];
      InterpretationIsContentWithoutFnc1(s[1..]);
      assert ([s[0]] + ReplaceGs1(s[1..], [FNC1]))[1..] == ReplaceGs1(s[1..], [FNC1]);
    }
  }

  /**
    A `>8` left behind in the interpretation: deleting one `>8` can join a new
    one, which String.Replace does not look at again.
   */
  lemma InterpretationMayKeepGs1Escape()
    ensures ReplaceGs1(">>88", []) == ">8"
    ensures ReplaceGs1(">>88", [FNC1]) == ['>', FNC1, '8']
  {
    assert ">>88"[1..] == ">88" && ">88"[2..] == "8";
    assert ReplaceGs1("8", []) == "8" && ReplaceGs1("8", [FNC1]) == "8";
    assert ReplaceGs1(">88", []) == "8";
    assert ReplaceGs1(">88", [FNC1]) == [FNC1, '8'];
  }

  // ---------------------------------------------------------------------------
  // Modes
  // ---------------------------------------------------------------------------

  /**
    Mode N (and no mode): a leading start code selects the subset and is
    removed from both content and interpretation, otherwise subset B; then
    every `>8` becomes FNC1 in the content and is dropped from the
    interpretation.
   */
  function ModeN(s: string): (r: Interpretation)
    ensures StartCodeMatch(s).None? ==> r == Interpretation(Code128B, ReplaceGs1(s, [FNC1]), ReplaceGs1(s, []))
    ensures StartCodeMatch(s).Some? ==>
      r == Interpretation(StartCodeMatch(s).value.0,
                          ReplaceGs1(StartCodeMatch(s).value.1, [FNC1]), ReplaceGs1(StartCodeMatch(s).value.1, []))
    ensures '\n' !in s && |s| >= 3 && IsStartToken(s[0], s[1]) ==>
      r == Interpretation(StartCodeSymbology(s[1]), ReplaceGs1(s[2..], [FNC1]), ReplaceGs1(s[2..], []))
    ensures r.symbology != Code128Auto
    ensures NoGs1Escape(r.content)
    ensures multiset(r.line)[FNC1] <= multiset(s)[FNC1]
    ensures FNC1 !in s ==> DeleteFnc1(r.content) == r.line
  {
    var m := StartCodeMatch(s);
    var body := if m.Some? then m.value.1 else s;
    EncodedHasNoGs1Escape(body);
    ReplaceGs1Counts(body);
    assert FNC1 !in s ==> DeleteFnc1(ReplaceGs1(body, [FNC1])) == ReplaceGs1(body, []) by {
      if FNC1 !in s {
        assert multiset(body)[FNC1] == 0;
        InterpretationIsContentWithoutFnc1(body);
      }
    }
    assert '\n' !in s && |s| >= 3 ==> '\n' !in s[2..] by {
      if '\n' !in s && |s| >= 3 {
        forall i | 0 <= i < |s| - 2 ensures s[2..][i] != '\n' {
          assert s[2..][i] == s[i + 2];
        }
      }
    }
    Interpretation(if m.Some? then m.value.0 else Code128B, ReplaceGs1(body, [FNC1]), ReplaceGs1(body, []))
  }

  /** Content without `>8` passes the replacement unchanged. */
  lemma {:induction false} ReplaceGs1Identity(s: string, replacement: string)
    requires NoGs1Escape(s)
    ensures ReplaceGs1(s, replacement) == s
  {
    if |s| >= 2 {
      assert !EscapeAt(s, 0);
      NoGs1EscapeInTail(s);
      ReplaceGs1Identity(s[1..], replacement);
      assert s == [s[0]] + s[1..];
    }
  }

  lemma NoGs1EscapeInTail(s: string)
    requires |s| > 0 && NoGs1Escape(s)
    ensures NoGs1Escape(s[1..])
  {
    forall i ensures !EscapeAt(s[1..], i) {
      assert !EscapeAt(s, i + 1);
    }
  }

  /** A bare start token is not consumed. */
  lemma BareStartTokenKept()
    ensures ModeN(">9") == Interpretation(Code128B, ">9", ">9")
  {
    assert StartCodeMatch(">9").None?;
    ReplaceGs1Identity(">9", [FNC1]);
    ReplaceGs1Identity(">9", []);
  }

  /** A start token followed by data selects its subset and is stripped. */
  lemma StartTokenSelectsSubset()
    ensures ModeN(">9ABC") == Interpretation(Code128A, "ABC", "ABC")
  {
    var s := ">9ABC";
    assert '\n' !in s && IsStartToken(s[0], s[1]) && s[2..] == "ABC";
    var t := "ABC";
    assert NoGs1Escape(t) by {
      forall i ensures !EscapeAt(t, i) {
        if 0 <= i < |t| {
          assert t[i] != '>';
        }
      }
    }
    ReplaceGs1Identity(t, [FNC1]);
    ReplaceGs1Identity(t, []);
  }

  /**
    Mode D: subset C; every `>8` becomes FNC1 and the content then starts with
    FNC1, one being added only when it does not already start with one.
   */
  function ModeD(s: string): (r: Interpretation)
    ensures r.symbology == Code128C
    ensures |r.content| > 0 && r.content[0] == FNC1
    ensures r.content == ReplaceGs1(s, [FNC1]) || r.content == [FNC1] + ReplaceGs1(s, [FNC1])
    ensures |r.content| >= 2 && r.content[1] == FNC1 ==> r.content == ReplaceGs1(s, [FNC1])
    ensures r.line == ReplaceGs1(s, [])
    ensures NoGs1Escape(r.content)
    ensures multiset(r.line)[FNC1] == multiset(s)[FNC1]
    ensures FNC1 !in s ==> DeleteFnc1(r.content) == r.line
  {
    var content := ReplaceGs1(s, [FNC1]);
    ReplaceGs1Fnc1Head(s);
    ReplaceGs1Counts(s);
    assert FNC1 !in s ==> DeleteFnc1(content) == ReplaceGs1(s, []) by {
      if FNC1 !in s {
        InterpretationIsContentWithoutFnc1(s);
      }
    }
    assert DeleteFnc1([FNC1] + content) == DeleteFnc1(content) by {
      assert ([FNC1] + content)[1..] == content;
    }
    var final := if |content| > 0 && content[0] == FNC1 then content else [FNC1] + content;
    assert NoGs1Escape(final) by {
      if final != content {
        forall i ensures !EscapeAt(final, i) {
          if 0 < i < |final| - 1 {
            assert final[i] == content[i - 1] && final[i + 1] == content[i];
            assert !EscapeAt(content, i - 1);
          }
        }
      }
    }
    Interpretation(Code128C, final, ReplaceGs1(s, []))
  }

  /** A hand-rolled GS1 field in mode N: the `>8` becomes FNC1 and leaves the line. */
  lemma ModeNGs1Example()
    ensures ModeN(">8012345678901") == Interpretation(Code128B, [FNC1] + "012345678901", "012345678901")
  {
    var s := ">8012345678901";
    var t := "012345678901";
    assert StartCodeMatch(s).None? by {
      assert !IsStartToken(s[0], s[1]);
    }
    assert ReplaceGs1(s, [FNC1]) == [FNC1] + t && ReplaceGs1(s, []) == t by {
      assert s[2..] == t && IsGs1Escape(s[0], s[1]);
      assert NoGs1Escape(t) by {
        forall i ensures !EscapeAt(t, i) {
          if 0 <= i < |t| {
            assert t[i] != '>';
          }
        }
      }
      ReplaceGs1Identity(t, [FNC1]);
      ReplaceGs1Identity(t, []);
    }
  }

  /** Mode D puts FNC1 in front of content that does not start with one. */
  lemma ModeDExample()
    ensures ModeD("123") == Interpretation(Code128C, [FNC1] + "123", "123")
  {
    var u := "123";
    assert NoGs1Escape(u) by {
      forall i ensures !EscapeAt(u, i) {
        if 0 <= i < |u| {
          assert u[i] != '>';
        }
      }
    }
    ReplaceGs1Identity(u, [FNC1]);
    ReplaceGs1Identity(u, []);
  }

  /** String.PadLeft(width, c): c added in front until s is width long. */
  function PadLeft(s: string, width: nat, c: char): (r: string)
    ensures |r| == if |s| < width then width else |s|
    ensures r[|r| - |s|..] == s
    ensures forall i :: 0 <= i < |r| - |s| ==> r[i] == c
  {
    if |s| < width then seq(width - |s|, _ => c) + s else s
  }

  /** The mode U field: the content left-padded with '0' to 19 characters, then cut to 19. */
  function Pad19(s: string): (r: string)
    ensures |r| == 19
    ensures |s| >= 19 ==> r == s[..19]
    ensures |s| < 19 ==> r[19 - |s|..] == s && forall i :: 0 <= i < 19 - |s| ==> r[i] == '0'
  {
    PadLeft(s, 19, '0')[..19]
  }

  predicate IsDigit(c: char)
  {
    '0' <= c <= '9'
  }

  predicate AllDigits(s: string)
  {
    forall i :: 0 <= i < |s| ==> IsDigit(s[i])
  }

  /** The weight of position i in the mode U checksum: 7 at even, 9 at odd positions. */
  function Weight(i: nat): int
  {
    i % 2 * 2 + 7
  }

  /** The mode U weighted sum of s[i..], each character counted as its code minus 48. */
  function WeightedSum(s: string, i: nat): (r: int)
    ensures AllDigits(s) ==> 0 <= r
    decreases |s| - i
  {
    if i >= |s| then 0
    else
      DigitTimesWeight(s, i);
      (s[i] as int - 48) * Weight(i) + WeightedSum(s, i + 1)
  }

  lemma DigitTimesWeight(s: string, i: nat)
    requires i < |s|
    ensures AllDigits(s) ==> 0 <= (s[i] as int - 48) * Weight(i)
  {
    if AllDigits(s) {
      var d := s[i] as int - 48;
      assert IsDigit(s[i]);
      if i % 2 == 0 {
        assert d * Weight(i) == 7 * d;
      } else {
        assert d * Weight(i) == 9 * d;
      }
    }
  }

  /**
    The GS1 mod-10 check digit (section 7.9 of the GS1 General
    Specifications): weight 3 on the rightmost digit, then alternately 1 and
    3 moving left; the check digit brings the sum up to a multiple of ten.
   */
  function Gs1Sum(s: string, i: nat): int
    decreases |s| - i
  {
    if i >= |s| then 0
    else (s[i] as int - 48) * (if (|s| - 1 - i) % 2 == 0 then 3 else 1) + Gs1Sum(s, i + 1)
  }

  function Gs1CheckDigit(s: string): (d: int)
    ensures 0 <= d <= 9
    ensures (Gs1Sum(s, 0) + d) % 10 == 0
  {
    (10 - Gs1Sum(s, 0) % 10) % 10
  }

  function DigitSum(s: string, i: nat): int
    decreases |s| - i
  {
    if i >= |s| then 0 else (s[i] as int - 48) + DigitSum(s, i + 1)
  }

  /**
    On an odd number of positions each mode U weight and the GS1 weight of
    the same position add up to ten (7 + 3 at even, 9 + 1 at odd positions).
   */
  lemma {:induction false} WeightsComplementGs1(s: string, i: nat)
    requires |s| % 2 == 1
    ensures WeightedSum(s, i) + Gs1Sum(s, i) == 10 * DigitSum(s, i)
    decreases |s| - i
  {
    if i < |s| {
      WeightsComplementGs1(s, i + 1);
      assert (|s| - 1 - i) % 2 == i % 2;
    }
  }

  /** C#'s `x % 10`: the remainder takes the sign of x. */
  function CsRem10(x: int): (r: int)
    ensures -10 < r < 10
    ensures x >= 0 ==> r >= 0
    ensures x <= 0 ==> r <= 0
    ensures (x - r) % 10 == 0
  {
    if x >= 0 then x % 10 else -((-x) % 10)
  }

  lemma Mod10Unique(x: int, k: int, r: int)
    requires x == 10 * k + r && 0 <= r < 10
    ensures x % 10 == r
  {
  }

  lemma ComplementMod10(w: int, g: int, d: int)
    requires w >= 0 && w + g == 10 * d
    ensures CsRem10(w) == (10 - g % 10) % 10
  {
    var q := g / 10;
    var m := g % 10;
    assert g == 10 * q + m && 0 <= m < 10;
    assert CsRem10(w) == w % 10;
    if m == 0 {
      Mod10Unique(w, d - q, 0);
      Mod10Unique(10, 1, 0);
    } else {
      Mod10Unique(w, d - q - 1, 10 - m);
      Mod10Unique(10 - m, 0, 10 - m);
    }
  }

  /**
    On 19 digits the mode U checksum, reduced as the drawer reduces it, is the
    GS1 mod-10 check digit: 7 and 9 are -3 and -1 modulo 10.
   */
  lemma CheckDigitIsGs1(s: string)
    requires |s| == 19 && AllDigits(s)
    ensures CsRem10(WeightedSum(s, 0)) == Gs1CheckDigit(s)
  {
    WeightsComplementGs1(s, 0);
    ComplementMod10(WeightedSum(s, 0), Gs1Sum(s, 0), DigitSum(s, 0));
  }

  /** The mode U checksum loop over the 19-character field. */
  method Checksum(field: string) returns (checksum: int)
    requires |field| == 19
    ensures checksum == WeightedSum(field, 0)
    ensures AllDigits(field) ==> 0 <= checksum && checksum % 10 == Gs1CheckDigit(field)
  {
    checksum := 0;
    for i := 0 to 19
      invariant checksum + WeightedSum(field, i) == WeightedSum(field, 0)
    {
      checksum := checksum + (field[i] as int - 48) * (i % 2 * 2 + 7);
    }
    if AllDigits(field) {
      CheckDigitIsGs1(field);
    }
  }

  function DigitChar(d: int): char
    requires 0 <= d <= 9
  {
    (48 + d) as char
  }

  /** An int between -9 and 9 formatted in decimal. */
  function CheckText(c: int): (r: string)
    requires -10 < c < 10
    ensures FNC1 !in r && |r| > 0
    ensures 0 <= c ==> |r| == 1 && IsDigit(r[0]) && r[0] as int - 48 == c
    ensures c < 0 ==> |r| == 2 && r[0] == '-' && r[1] as int - 48 == -c
  {
    if c >= 0 then [DigitChar(c)] else ['-', DigitChar(-c)]
  }

  /**
    Mode U: subset C; the content is FNC1, the 19-character field and the
    checksum text; the interpretation is the unpadded, uncut content followed
    by the same checksum text. On a field of digits the checksum is the GS1
    check digit and the content is 21 characters long.
   */
  function ModeU(s: string): (r: Interpretation)
    ensures r.symbology == Code128C
    ensures r.content == [FNC1] + Pad19(s) + CheckText(CsRem10(WeightedSum(Pad19(s), 0)))
    ensures r.line == s + CheckText(CsRem10(WeightedSum(Pad19(s), 0)))
    ensures |r.content| >= 21 && r.content[0] == FNC1 && r.content[1..20] == Pad19(s)
    ensures |r.line| > |s| && r.line[..|s|] == s && r.line[|s|..] == r.content[20..]
    ensures multiset(r.line)[FNC1] == multiset(s)[FNC1]
    ensures AllDigits(Pad19(s)) ==>
      |r.content| == 21 && r.content[20] == DigitChar(Gs1CheckDigit(Pad19(s))) && r.line == s + [r.content[20]]
  {
    var field := Pad19(s);
    var check := CheckText(CsRem10(WeightedSum(field, 0)));
    assert multiset(s + check)[FNC1] == multiset(s)[FNC1] by {
      assert multiset(s + check) == multiset(s) + multiset(check);
      assert multiset(check)[FNC1] == 0;
    }
    assert AllDigits(field) ==> CsRem10(WeightedSum(field, 0)) == Gs1CheckDigit(field) by {
      if AllDigits(field) {
        CheckDigitIsGs1(field);
      }
    }
    Interpretation(Code128C, [FNC1] + field + check, s + check)
  }

  /** Mode U as the drawer runs it: PadLeft and Substring, the checksum loop, `% 10` and ToString. */
  method EncodeModeU(s: string) returns (r: Interpretation)
    ensures r == ModeU(s)
  {
    var field := PadLeft(s, 19, '0')[..19];
    var checksum := Checksum(field);
    var check := CheckText(CsRem10(checksum));
    r := Interpretation(Code128C, [FNC1] + field + check, s + check);
  }

  /** The all-zero field ending in 1: only the last digit counts, with weight 7. */
  lemma {:induction false} ZerosWeighNothing(s: string, i: nat)
    requires forall j :: i <= j < |s| - 1 ==> s[j] == '0'
    ensures i < |s| ==> WeightedSum(s, i) == WeightedSum(s, |s| - 1)
    decreases |s| - i
  {
    if i < |s| - 1 {
      ZerosWeighNothing(s, i + 1);
    }
  }

  lemma ModeUExample()
    ensures ModeU("0000000000000000001") ==
      Interpretation(Code128C, [FNC1] + "0000000000000000001" + "7", "00000000000000000017")
  {
    var s := "0000000000000000001";
    assert Pad19(s) == s;
    ExampleFieldChecksum();
    assert CheckText(CsRem10(7)) == "7";
    assert s + "7" == "00000000000000000017";
  }

  /**
    The mode U content is 21 characters unless C#'s remainder of the weighted
    sum is negative; then the check text is '-' and a digit and the content is
    22 characters. A field of digits always gives 21, but so can others.
   */
  lemma ModeUContentLength(s: string)
    ensures |ModeU(s).content| == (if CsRem10(WeightedSum(Pad19(s), 0)) < 0 then 22 else 21)
    ensures AllDigits(Pad19(s)) ==> |ModeU(s).content| == 21
  {
    var c := CsRem10(WeightedSum(Pad19(s), 0));
    assert |CheckText(c)| == (if c < 0 then 2 else 1);
  }

  /** A character below '0' can make the checksum negative: `/` is printed `/-7`. */
  lemma ModeUNegativeCheck()
    ensures ModeU("/").line == "/-7"
    ensures |ModeU("/").content| == 22
  {
    NegativeCheckText();
    ModeUContentLength("/");
  }

  lemma NegativeCheckText()
    ensures CheckText(CsRem10(WeightedSum(Pad19("/"), 0))) == "-7"
  {
    NegativeFieldChecksum();
  }

  lemma NegativeFieldChecksum()
    ensures WeightedSum(Pad19("/"), 0) == -7
  {
    var s := "000000000000000000/";
    assert Pad19("/") == s;
    assert |s| == 19 && s[18] == '/';
    assert forall j :: 0 <= j < 18 ==> s[j] == '0';
    ZerosWeighNothing(s, 0);
    assert WeightedSum(s, 19) == 0;
  }

  lemma ExampleFieldChecksum()
    ensures WeightedSum("0000000000000000001", 0) == 7
  {
    var s := "0000000000000000001";
    assert |s| == 19 && s[18] == '1';
    assert forall j :: 0 <= j < 18 ==> s[j] == '0';
    ZerosWeighNothing(s, 0);
    assert WeightedSum(s, 19) == 0;
  }

  // ---------------------------------------------------------------------------
  // Dispatch and draw
  // ---------------------------------------------------------------------------

  /**
    The symbology, content and interpretation of a field: the stray-token
    filter, then the mode. Mode A and any unknown mode keep the filtered
    content as it is, in both content and interpretation.
   */
  function Interpret(raw: string, mode: string): (r: Interpretation)
    ensures mode in {"", "N"} ==> r == ModeN(Normalize(raw))
    ensures mode == "A" ==> r == Interpretation(Code128Auto, Normalize(raw), Normalize(raw))
    ensures mode == "D" ==> r == ModeD(Normalize(raw))
    ensures mode == "U" ==> r == ModeU(Normalize(raw))
    ensures mode !in {"", "N", "A", "D", "U"} ==> r == Interpretation(Code128B, Normalize(raw), Normalize(raw))
    ensures mode in {"D", "U"} ==> r.symbology == Code128C
    ensures mode in {"", "N"} ==> r.symbology in {Code128A, Code128B, Code128C}
    ensures mode in {"", "N", "D"} ==> NoGs1Escape(r.content)
    ensures mode in {"D", "U"} ==> |r.content| > 0 && r.content[0] == FNC1
  {
    var s := Normalize(raw);
    if mode == "" || mode == "N" then ModeN(s)
    else if mode == "A" then Interpretation(Code128Auto, s, s)
    else if mode == "D" then ModeD(s)
    else if mode == "U" then ModeU(s)
    else Interpretation(Code128B, s, s)
  }

  /** Whatever the mode, the interpretation holds an FNC1 only if the field did. */
  lemma InterpretationHasNoFnc1(raw: string, mode: string)
    requires FNC1 !in raw
    ensures FNC1 !in Interpret(raw, mode).line
  {
    var s := Normalize(raw);
    assert multiset(s)[FNC1] == 0 by {
      assert multiset(raw)[FNC1] == 0;
    }
    assert multiset(Interpret(raw, mode).line)[FNC1] == 0;
  }

  /**
    In modes N and D the interpretation is the content with its FNC1
    characters deleted, as long as the field holds no FNC1.
   */
  lemma InterpretationIsEncodedText(raw: string, mode: string)
    requires FNC1 !in raw && mode in {"", "N", "D"}
    ensures DeleteFnc1(Interpret(raw, mode).content) == Interpret(raw, mode).line
  {
    var s := Normalize(raw);
    assert FNC1 !in s by {
      assert multiset(raw)[FNC1] == 0;
      assert multiset(s)[FNC1] <= multiset(raw)[FNC1];
    }
  }

  /**
    The interpretation can still show a start token in mode N: the single
    filter pass can join a new one, which is no longer at the start.
   */
  lemma ModeNMayShowStartToken()
    ensures Interpret("A>>99", "N").line == "A>9"
  {
    FilteredJoinedToken();
    JoinedTokenKept();
  }

  lemma FilteredJoinedToken()
    ensures Interpret("A>>99", "N") == ModeN("A>9")
  {
    NormalizeNotIdempotent();
  }

  lemma JoinedTokenKept()
    ensures ModeN("A>9").line == "A>9"
  {
    assert StartCodeMatch("A>9").None?;
    assert "A>9"[1..] == ">9" && ">9"[1..] == "9";
    assert ReplaceGs1(">9", []) == ">9";
  }

  /** Mode A strips no start code: it stays in content and interpretation. */
  lemma ModeAKeepsStartToken()
    ensures Interpret(">9AB", "A") == Interpretation(Code128Auto, ">9AB", ">9AB")
  {
    StartTokenNotStray();
  }

  lemma StartTokenNotStray()
    ensures Normalize(">9AB") == ">9AB"
  {
    var u := ">9AB";
    assert !HasStrayToken(u) by {
      forall i | 1 <= i ensures !TokenAt(u, i) {
        if i < |u| {
          assert u[i] != '>';
        }
      }
    }
    NormalizeFixedPoints(u);
  }

  /**
    One draw of a ^BC field: the encoder gets the interpretation and an image
    height with the label height carved out of the field height, while
    DrawBarcode gets the field height itself.
   */
  function Draw(f: Field, fontHeight: int): (r: Render)
    ensures r.includeLabel == f.printInterpretationLine && r.barWidth == f.moduleWidth
    ensures r.drawHeight == f.height
    ensures r.encoderHeight + r.layout.labelHeight == f.height
    ensures !f.printInterpretationLine ==> r.encoderHeight == f.height && r.layout.labelHeightOffset == 0
    ensures f.printInterpretationLine ==> r.layout.labelHeight == fontHeight
    ensures r.layout.labelHeightOffset == (if f.printInterpretationLineAboveCode then r.layout.labelHeight else 0)
    ensures r.symbology == Interpret(f.content, f.mode).symbology && r.symbology != Code39Extended
    ensures r.content == Interpret(f.content, f.mode).content
    ensures r.alternateLabel == Interpret(f.content, f.mode).line
    ensures FNC1 !in f.content ==> FNC1 !in r.alternateLabel
  {
    var i := Interpret(f.content, f.mode);
    var layout := Layout(f.printInterpretationLine, f.printInterpretationLineAboveCode, fontHeight);
    assert FNC1 !in f.content ==> FNC1 !in i.line by {
      if FNC1 !in f.content {
        InterpretationHasNoFnc1(f.content, f.mode);
      }
    }
    Render(i.symbology, i.content, i.line, f.printInterpretationLine, f.moduleWidth,
           f.height - layout.labelHeight, f.height, layout)
  }
}
