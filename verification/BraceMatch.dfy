/**
 The brace matching of the script editor: which brace a caret is on, and the scan for its
 partner, past braces in highlighted text (comments, literals).
 */
module BraceMatching {

  // ---- braces ------------------------------------------------------------------

  /** The counterpart of a brace, '\0' if there is none, and the direction to search for it. */
  datatype PairBrace = PairBrace(c: char, isBackwardSearch: bool) {
    predicate IsBrace() {
      c != '\0'
    }
  }

  function CheckBraceMatch(ch: char): PairBrace {
    match ch
    case '(' => PairBrace(')', false)
    case '[' => PairBrace(']', false)
    case '{' => PairBrace('}', false)
    case ')' => PairBrace('(', true)
    case ']' => PairBrace('[', true)
    case '}' => PairBrace('{', true)
    case _ => PairBrace('\0', false)
  }

  /** Matching a brace twice gives the brace back, searched for the other way. */
  lemma BracesPairUp(ch: char)
    requires CheckBraceMatch(ch).IsBrace()
    ensures var pair := CheckBraceMatch(ch);
      pair.c != ch && CheckBraceMatch(pair.c) == PairBrace(ch, !pair.isBackwardSearch)
  {
  }

  // ---- partners ------------------------------------------------------------------

  /** A kind of brace. */
  datatype Kind = Kind(open: char, close: char)

  /** What the character at `i` does to the nesting level; highlighted text does nothing. */
  function Delta(text: string, skip: nat -> bool, kind: Kind, i: nat): int
    requires i < |text|
  {
    if skip(i) then 0
    else if text[i] == kind.open then 1
    else if text[i] == kind.close then -1
    else 0
  }

  /** The change of the nesting level over `text[lo..hi]`. */
  ghost function Rise(text: string, skip: nat -> bool, kind: Kind, lo: nat, hi: nat): int
    requires lo <= hi <= |text|
    decreases hi - lo
  {
    if lo == hi then 0 else Rise(text, skip, kind, lo, hi - 1) + Delta(text, skip, kind, hi - 1)
  }

  /** The braces of this kind in `text[lo..hi]` are properly nested. */
  ghost predicate Balanced(text: string, skip: nat -> bool, kind: Kind, lo: nat, hi: nat)
    requires lo <= hi <= |text|
  {
    && Rise(text, skip, kind, lo, hi) == 0
    && forall k: nat {:trigger Rise(text, skip, kind, lo, k)} :: lo <= k <= hi ==> Rise(text, skip, kind, lo, k) >= 0
  }

  /** An opening and a closing brace in plain text with properly nested braces between them. */
  ghost predicate Partners(text: string, skip: nat -> bool, kind: Kind, p: nat, q: nat) {
    && p < q < |text|
    && !skip(p) && text[p] == kind.open
    && !skip(q) && text[q] == kind.close
    && Balanced(text, skip, kind, p + 1, q)
  }

  lemma {:induction false} RiseSplits(text: string, skip: nat -> bool, kind: Kind, lo: nat, mid: nat, hi: nat)
    requires lo <= mid <= hi <= |text|
    ensures Rise(text, skip, kind, lo, hi) == Rise(text, skip, kind, lo, mid) + Rise(text, skip, kind, mid, hi)
    decreases hi - mid
  {
    if mid < hi {
      RiseSplits(text, skip, kind, lo, mid, hi - 1);
    }
  }

  /** Past its partner, an opening brace has no balanced stretch. */
  lemma PartnerEndsBalance(text: string, skip: nat -> bool, kind: Kind, p: nat, q: nat, hi: nat)
    requires kind.open != kind.close
    requires Partners(text, skip, kind, p, q) && q < hi <= |text|
    ensures !Balanced(text, skip, kind, p + 1, hi)
  {
    assert Rise(text, skip, kind, p + 1, q + 1) < 0;
  }

  /** An opening brace has at most one partner. */
  lemma OnePartnerAhead(text: string, skip: nat -> bool, kind: Kind, p: nat, q: nat, q': nat)
    requires kind.open != kind.close
    requires Partners(text, skip, kind, p, q) && Partners(text, skip, kind, p, q')
    ensures q == q'
  {
    if q < q' {
      PartnerEndsBalance(text, skip, kind, p, q, q');
    } else if q' < q {
      PartnerEndsBalance(text, skip, kind, p, q', q);
    }
  }

  /** Partners of one kind are nested or apart, they never cross. */
  lemma PartnersNeverCross(text: string, skip: nat -> bool, kind: Kind, p: nat, q: nat, p': nat, q': nat)
    requires kind.open != kind.close
    requires Partners(text, skip, kind, p, q) && Partners(text, skip, kind, p', q')
    requires p < p' < q
    ensures q' < q
  {
    if q <= q' {
      // From p' on the level is above the one before p', which is not below 0.
      RiseSplits(text, skip, kind, p + 1, p', q);
      RiseSplits(text, skip, kind, p', p' + 1, q);
    }
  }

  /** A closing brace has at most one partner. */
  lemma OnePartnerBehind(text: string, skip: nat -> bool, kind: Kind, p: nat, p': nat, q: nat)
    requires kind.open != kind.close
    requires Partners(text, skip, kind, p, q) && Partners(text, skip, kind, p', q)
    ensures p == p'
  {
    if p < p' {
      PartnersNeverCross(text, skip, kind, p, q, p', q);
    } else if p' < p {
      PartnersNeverCross(text, skip, kind, p', q, p, q);
    }
  }

  /** Nesting read from the end is nesting read from the start. */
  lemma BalancedFromBehind(text: string, skip: nat -> bool, kind: Kind, lo: nat, hi: nat)
    requires lo <= hi <= |text|
    requires Rise(text, skip, kind, lo, hi) == 0
    requires forall k: nat {:trigger Rise(text, skip, kind, k, hi)} :: lo <= k <= hi ==>
               Rise(text, skip, kind, k, hi) <= 0
    ensures Balanced(text, skip, kind, lo, hi)
  {
    forall k: nat {:trigger Rise(text, skip, kind, lo, k)} | lo <= k <= hi
      ensures Rise(text, skip, kind, lo, k) >= 0
    {
      RiseSplits(text, skip, kind, lo, k, hi);
    }
  }

  // ---- properly nested text -----------------------------------------------------------

  /**
   What properly nested means: text without braces of this kind, and opening braces each
   followed by nested text, a closing brace and nested text again. Highlighted braces are text.
   */
  ghost predicate Nested(text: string, skip: nat -> bool, kind: Kind, lo: nat, hi: nat)
    requires lo <= hi <= |text|
    decreases hi - lo
  {
    || lo == hi
    || if !skip(lo) && text[lo] == kind.open
       then exists q :: lo < q < hi && NestedUpTo(text, skip, kind, lo, q) && Nested(text, skip, kind, q + 1, hi)
       else (skip(lo) || text[lo] != kind.close) && Nested(text, skip, kind, lo + 1, hi)
  }

  /** From the brace at `p` nested text leads to a closing brace at `q`. */
  ghost predicate NestedUpTo(text: string, skip: nat -> bool, kind: Kind, p: nat, q: nat)
    requires p < q < |text|
    decreases q - p
  {
    !skip(q) && text[q] == kind.close && Nested(text, skip, kind, p + 1, q)
  }

  lemma RiseOfOne(text: string, skip: nat -> bool, kind: Kind, i: nat)
    requires i < |text|
    ensures Rise(text, skip, kind, i, i + 1) == Delta(text, skip, kind, i)
  {
    assert Rise(text, skip, kind, i, i) == 0;
  }

  /** One character more in front. */
  lemma RiseInFront(text: string, skip: nat -> bool, kind: Kind, lo: nat, k: nat)
    requires lo < k <= |text|
    ensures Rise(text, skip, kind, lo, k) == Delta(text, skip, kind, lo) + Rise(text, skip, kind, lo + 1, k)
  {
    RiseOfOne(text, skip, kind, lo);
    RiseSplits(text, skip, kind, lo, lo + 1, k);
  }

  lemma BalancedJoins(text: string, skip: nat -> bool, kind: Kind, lo: nat, mid: nat, hi: nat)
    requires lo <= mid <= hi <= |text|
    requires Balanced(text, skip, kind, lo, mid) && Balanced(text, skip, kind, mid, hi)
    ensures Balanced(text, skip, kind, lo, hi)
  {
    forall k: nat {:trigger Rise(text, skip, kind, lo, k)} | lo <= k <= hi ensures Rise(text, skip, kind, lo, k) >= 0 {
      if mid < k {
        RiseSplits(text, skip, kind, lo, mid, k);
      }
    }
    RiseSplits(text, skip, kind, lo, mid, hi);
  }

  lemma BalancedInBraces(text: string, skip: nat -> bool, kind: Kind, p: nat, q: nat)
    requires kind.open != kind.close && p < q < |text| && !skip(p) && text[p] == kind.open
    requires !skip(q) && text[q] == kind.close
    ensures Balanced(text, skip, kind, p + 1, q) ==> Balanced(text, skip, kind, p, q + 1)
  {
    if Balanced(text, skip, kind, p + 1, q) {
      forall k: nat {:trigger Rise(text, skip, kind, p, k)} | p <= k <= q + 1
        ensures Rise(text, skip, kind, p, k) >= 0
      {
        if p < k <= q {
          RiseInFront(text, skip, kind, p, k);
        } else if k == q + 1 {
          RiseInFront(text, skip, kind, p, q);
        }
      }
      RiseInFront(text, skip, kind, p, q);
    }
  }

  lemma BalancedBehindText(text: string, skip: nat -> bool, kind: Kind, lo: nat, hi: nat)
    requires lo < hi <= |text| && Delta(text, skip, kind, lo) == 0
    ensures Balanced(text, skip, kind, lo, hi) <==> Balanced(text, skip, kind, lo + 1, hi)
  {
    forall k: nat {:trigger Rise(text, skip, kind, lo, k)} {:trigger Rise(text, skip, kind, lo + 1, k)} | lo < k <= hi
      ensures Rise(text, skip, kind, lo, k) == Rise(text, skip, kind, lo + 1, k)
    {
      RiseInFront(text, skip, kind, lo, k);
    }
    assert Rise(text, skip, kind, lo, lo) == 0;
  }

  /** Where the level first comes back to that before `lo`. */
  lemma {:induction false} FirstReturn(text: string, skip: nat -> bool, kind: Kind, lo: nat, k: nat, hi: nat) returns (q: nat)
    requires lo < k <= hi <= |text| && Rise(text, skip, kind, lo, hi) == 0
    requires forall j: nat {:trigger Rise(text, skip, kind, lo, j)} :: lo < j < k ==> Rise(text, skip, kind, lo, j) > 0
    requires forall j: nat {:trigger Rise(text, skip, kind, lo, j)} :: lo <= j <= hi ==> Rise(text, skip, kind, lo, j) >= 0
    ensures k <= q + 1 <= hi && Rise(text, skip, kind, lo, q + 1) == 0
    ensures forall j: nat {:trigger Rise(text, skip, kind, lo, j)} :: lo < j <= q ==> Rise(text, skip, kind, lo, j) > 0
    decreases hi - k
  {
    if Rise(text, skip, kind, lo, k) == 0 {
      q := k - 1;
    } else {
      q := FirstReturn(text, skip, kind, lo, k + 1, hi);
    }
  }

  /** An opening brace at the start of balanced text has its partner there. */
  lemma PartnerInBalanced(text: string, skip: nat -> bool, kind: Kind, lo: nat, hi: nat) returns (q: nat)
    requires kind.open != kind.close && lo < hi <= |text| && Balanced(text, skip, kind, lo, hi)
    requires !skip(lo) && text[lo] == kind.open
    ensures lo < q < hi && !skip(q) && text[q] == kind.close
    ensures Balanced(text, skip, kind, lo + 1, q) && Balanced(text, skip, kind, q + 1, hi)
  {
    RiseOfOne(text, skip, kind, lo);
    q := FirstReturn(text, skip, kind, lo, lo + 1, hi);
    forall k: nat {:trigger Rise(text, skip, kind, lo + 1, k)} | lo + 1 <= k <= q
      ensures Rise(text, skip, kind, lo + 1, k) >= 0
    {
      RiseInFront(text, skip, kind, lo, k);
    }
    RiseInFront(text, skip, kind, lo, q);
    forall k: nat {:trigger Rise(text, skip, kind, q + 1, k)} | q + 1 <= k <= hi
      ensures Rise(text, skip, kind, q + 1, k) >= 0
    {
      RiseSplits(text, skip, kind, lo, q + 1, k);
    }
    RiseSplits(text, skip, kind, lo, q + 1, hi);
  }

  lemma PartnerInNested(text: string, skip: nat -> bool, kind: Kind, lo: nat, hi: nat) returns (q: nat)
    requires lo < hi <= |text| && Nested(text, skip, kind, lo, hi) && !skip(lo) && text[lo] == kind.open
    ensures lo < q < hi && !skip(q) && text[q] == kind.close
    ensures Nested(text, skip, kind, lo + 1, q) && Nested(text, skip, kind, q + 1, hi)
  {
    q :| lo < q < hi && NestedUpTo(text, skip, kind, lo, q) && Nested(text, skip, kind, q + 1, hi);
  }

  /** Levels that come back to 0 and never fall below are proper nesting. */
  lemma {:induction false} BalancedIsNested(text: string, skip: nat -> bool, kind: Kind, lo: nat, hi: nat)
    requires kind.open != kind.close && lo <= hi <= |text|
    ensures Balanced(text, skip, kind, lo, hi) <==> Nested(text, skip, kind, lo, hi)
    decreases hi - lo
  {
    if lo < hi {
      if !skip(lo) && text[lo] == kind.open {
        if Balanced(text, skip, kind, lo, hi) {
          var q := PartnerInBalanced(text, skip, kind, lo, hi);
          BalancedIsNested(text, skip, kind, lo + 1, q);
          BalancedIsNested(text, skip, kind, q + 1, hi);
          assert NestedUpTo(text, skip, kind, lo, q);
        }
        if Nested(text, skip, kind, lo, hi) {
          var q := PartnerInNested(text, skip, kind, lo, hi);
          BalancedIsNested(text, skip, kind, lo + 1, q);
          BalancedIsNested(text, skip, kind, q + 1, hi);
          BalancedInBraces(text, skip, kind, lo, q);
          BalancedJoins(text, skip, kind, lo, q + 1, hi);
        }
      } else if skip(lo) || text[lo] != kind.close {
        BalancedBehindText(text, skip, kind, lo, hi);
        BalancedIsNested(text, skip, kind, lo + 1, hi);
      } else {
        RiseOfOne(text, skip, kind, lo);
      }
    }
  }

  // ---- the scans -------------------------------------------------------------------

  method ScanForward(text: string, skip: nat -> bool, kind: Kind, pos: nat) returns (matchPos: int)
    requires kind.open != kind.close
    requires pos < |text| && text[pos] == kind.open && !skip(pos)
    ensures matchPos == -1 || pos < matchPos < |text|
    ensures matchPos != -1 ==> Partners(text, skip, kind, pos, matchPos)
    ensures matchPos == -1 ==> forall q: nat :: !Partners(text, skip, kind, pos, q)
  {
    matchPos := -1;
    var level := 1;
    var i := pos + 1;
    while i < |text|
      invariant pos < i <= |text|
      invariant level == 1 + Rise(text, skip, kind, pos + 1, i)
      invariant forall k: nat {:trigger Rise(text, skip, kind, pos + 1, k)} :: pos < k <= i ==>
                  Rise(text, skip, kind, pos + 1, k) >= 0
    {
      var c := text[i];
      if c == kind.open {
        if !skip(i) {
          level := level + 1;
        }
      } else if c == kind.close {
        if !skip(i) {
          level := level - 1;
          if level == 0 {
            return i;
          }
        }
      }
      i := i + 1;
    }
    forall q: nat ensures !Partners(text, skip, kind, pos, q) {
      if Partners(text, skip, kind, pos, q) {
        assert Rise(text, skip, kind, pos + 1, q + 1) < 0;
      }
    }
  }

  method ScanBackward(text: string, skip: nat -> bool, kind: Kind, pos: nat) returns (matchPos: int)
    requires kind.open != kind.close
    requires pos < |text| && text[pos] == kind.close && !skip(pos)
    ensures -1 <= matchPos < pos
    ensures matchPos != -1 ==> Partners(text, skip, kind, matchPos, pos)
    ensures matchPos == -1 ==> forall p: nat :: !Partners(text, skip, kind, p, pos)
  {
    matchPos := -1;
    var level := 1;
    var i := pos - 1;
    while i >= 0
      invariant -1 <= i < pos
      invariant level == 1 - Rise(text, skip, kind, i + 1, pos)
      invariant forall k: nat {:trigger Rise(text, skip, kind, k, pos)} :: i < k <= pos ==>
                  Rise(text, skip, kind, k, pos) <= 0
    {
      var c := text[i];
      RiseSplits(text, skip, kind, i, i + 1, pos);
      assert Rise(text, skip, kind, i, i + 1) == Delta(text, skip, kind, i) by {
        assert Rise(text, skip, kind, i, i) == 0;
      }
      if c == kind.close {
        if !skip(i) {
          level := level + 1;
        }
      } else if c == kind.open {
        if !skip(i) {
          level := level - 1;
          if level == 0 {
            matchPos := i;
            BalancedFromBehind(text, skip, kind, i + 1, pos);
            break;
          }
        }
      }
      i := i - 1;
    }
    if matchPos == -1 {
      forall p: nat ensures !Partners(text, skip, kind, p, pos) {
        if Partners(text, skip, kind, p, pos) {
          RiseSplits(text, skip, kind, p, p + 1, pos);
        }
      }
    }
  }

  // ---- the highlighted pair ------------------------------------------------------------

  datatype Option<T> = None | Some(value: T)

  /** The caret, its line and whether text is selected. */
  datatype Caret = Caret(position: nat, lineStart: nat, lineEnd: nat, hasSelection: bool)

  ghost predicate InText(text: string, caret: Caret) {
    caret.lineStart <= caret.position <= caret.lineEnd <= |text|
  }

  /** The character after the caret, '\0' at the end of its line. */
  function NextChar(text: string, caret: Caret): char
    requires InText(text, caret)
  {
    if caret.position >= caret.lineEnd then '\0' else text[caret.position]
  }

  /** The character before the caret, '\0' at the start of its line. */
  function PrevChar(text: string, caret: Caret): char
    requires InText(text, caret)
  {
    if caret.position <= caret.lineStart then '\0' else text[caret.position - 1]
  }

  /** The braces at `p` and `q` stand in plain text and match. */
  ghost predicate Matches(text: string, skip: nat -> bool, p: nat, q: nat) {
    && p < |text| && q < |text|
    && var pair := CheckBraceMatch(text[p]);
    && pair.IsBrace()
    && if pair.isBackwardSearch
       then Partners(text, skip, Kind(pair.c, text[p]), q, p)
       else Partners(text, skip, Kind(text[p], pair.c), p, q)
  }

  /** The scan undoes itself: from the match of a brace it finds that brace, and no other. */
  lemma MatchingIsAnInvolution(text: string, skip: nat -> bool, p: nat, q: nat)
    requires Matches(text, skip, p, q)
    ensures Matches(text, skip, q, p)
    ensures forall r: nat :: Matches(text, skip, q, r) ==> r == p
    ensures forall r: nat :: Matches(text, skip, p, r) ==> r == q
  {
    BracesPairUp(text[p]);
    var pair := CheckBraceMatch(text[p]);
    var kind := if pair.isBackwardSearch then Kind(pair.c, text[p]) else Kind(text[p], pair.c);
    var lo, hi := if pair.isBackwardSearch then q else p, if pair.isBackwardSearch then p else q;
    forall r: nat | Matches(text, skip, q, r) ensures r == p {
      if pair.isBackwardSearch {
        OnePartnerAhead(text, skip, kind, lo, hi, r);
      } else {
        OnePartnerBehind(text, skip, kind, lo, r, hi);
      }
    }
    forall r: nat | Matches(text, skip, p, r) ensures r == q {
      if pair.isBackwardSearch {
        OnePartnerBehind(text, skip, kind, lo, r, hi);
      } else {
        OnePartnerAhead(text, skip, kind, lo, hi, r);
      }
    }
  }

  /** The position of the brace that a caret without selection is on: the next character comes first. */
  function Anchor(text: string, caret: Caret): Option<nat>
    requires InText(text, caret)
  {
    if caret.hasSelection then None
    else if CheckBraceMatch(NextChar(text, caret)).IsBrace() then Some(caret.position)
    else if CheckBraceMatch(PrevChar(text, caret)).IsBrace() then Some(caret.position - 1)
    else None
  }

  /** What the editor shows when the caret is on a brace: that brace and its match, or nothing. */
  ghost predicate Shown(text: string, skip: nat -> bool, caret: Caret, anchor: Option<nat>, pair: Option<nat>)
    requires InText(text, caret)
  {
    match Anchor(text, caret)
    case None => anchor == pair == None
    case Some(p) =>
      if exists q: nat :: Matches(text, skip, p, q)
      then anchor == Some(p) && pair.Some? && Matches(text, skip, p, pair.value)
      else anchor == pair == None
  }

  // ---- the same in terms of the characters ---------------------------------------------

  /**
   The caret, without selection, is in front of the character at `p` in its line, or right behind
   it with no brace as the next character of the line.
   */
  ghost predicate CaretOn(text: string, caret: Caret, p: nat)
    requires InText(text, caret)
  {
    && !caret.hasSelection
    && if caret.position == p then p < caret.lineEnd
       else
         && caret.lineStart < caret.position == p + 1
         && (caret.position < caret.lineEnd ==> text[caret.position] !in "()[]{}")
  }

  /** Two braces of one kind in plain text, with properly nested text between them. */
  ghost predicate BracePartners(text: string, skip: nat -> bool, p: nat, q: nat) {
    && p < q < |text| && !skip(p) && !skip(q)
    && match text[p]
       case '(' => text[q] == ')' && Nested(text, skip, Kind('(', ')'), p + 1, q)
       case '[' => text[q] == ']' && Nested(text, skip, Kind('[', ']'), p + 1, q)
       case '{' => text[q] == '}' && Nested(text, skip, Kind('{', '}'), p + 1, q)
       case _ => false
  }

  /** Shown are exactly the brace that the caret is on and its partner. */
  ghost predicate ShowsPartners(text: string, skip: nat -> bool, caret: Caret, anchor: Option<nat>, pair: Option<nat>)
    requires InText(text, caret)
  {
    && (forall p: nat, q: nat :: BracePartners(text, skip, p, q) ==>
          && (CaretOn(text, caret, p) ==> anchor == Some(p) && pair == Some(q))
          && (CaretOn(text, caret, q) ==> anchor == Some(q) && pair == Some(p)))
    && (anchor.Some? <==> pair.Some?)
    && (anchor.Some? ==>
          && CaretOn(text, caret, anchor.value)
          && (BracePartners(text, skip, anchor.value, pair.value) || BracePartners(text, skip, pair.value, anchor.value)))
  }

  lemma MatchesArePartners(text: string, skip: nat -> bool, p: nat, q: nat)
    ensures Matches(text, skip, p, q) <==> BracePartners(text, skip, p, q) || BracePartners(text, skip, q, p)
  {
    hide Balanced, Nested;
    if p < q < |text| {
      PartnersAreNested(text, skip, p, q);
    } else if q < p < |text| {
      PartnersAreNested(text, skip, q, p);
    }
  }

  lemma PartnersAreNested(text: string, skip: nat -> bool, p: nat, q: nat)
    requires p < q < |text|
    ensures BracePartners(text, skip, p, q) <==>
            || Partners(text, skip, Kind('(', ')'), p, q)
            || Partners(text, skip, Kind('[', ']'), p, q)
            || Partners(text, skip, Kind('{', '}'), p, q)
  {
    hide Balanced, Nested;
    BalancedIsNested(text, skip, Kind('(', ')'), p + 1, q);
    BalancedIsNested(text, skip, Kind('[', ']'), p + 1, q);
    BalancedIsNested(text, skip, Kind('{', '}'), p + 1, q);
  }

  lemma AnchorIsCaretOn(text: string, caret: Caret, p: nat)
    requires InText(text, caret) && p < |text| && text[p] in "()[]{}"
    ensures CaretOn(text, caret, p) <==> Anchor(text, caret) == Some(p)
  {
  }

  lemma AnchorIsBrace(text: string, caret: Caret)
    requires InText(text, caret) && Anchor(text, caret).Some?
    ensures Anchor(text, caret).value < |text| && text[Anchor(text, caret).value] in "()[]{}"
  {
  }

  lemma ShownArePartners(text: string, skip: nat -> bool, caret: Caret, anchor: Option<nat>, pair: Option<nat>)
    requires InText(text, caret) && Shown(text, skip, caret, anchor, pair)
    ensures ShowsPartners(text, skip, caret, anchor, pair)
  {
    forall p: nat, q: nat | BracePartners(text, skip, p, q)
      ensures CaretOn(text, caret, p) ==> anchor == Some(p) && pair == Some(q)
      ensures CaretOn(text, caret, q) ==> anchor == Some(q) && pair == Some(p)
    {
      AnchorIsCaretOn(text, caret, p);
      AnchorIsCaretOn(text, caret, q);
      MatchesArePartners(text, skip, p, q);
      MatchesArePartners(text, skip, q, p);
      MatchingIsAnInvolution(text, skip, p, q);
    }
    if anchor.Some? {
      AnchorIsBrace(text, caret);
      AnchorIsCaretOn(text, caret, anchor.value);
      MatchesArePartners(text, skip, anchor.value, pair.value);
    }
  }

  /** Moving the caret in front of the matching brace shows the same two braces, swapped. */
  lemma JumpingShowsTheSamePair(text: string, skip: nat -> bool, caret: Caret, anchor: Option<nat>, pair: Option<nat>,
                                jumped: Caret, anchor': Option<nat>, pair': Option<nat>)
    requires InText(text, caret) && InText(text, jumped)
    requires Shown(text, skip, caret, anchor, pair) && anchor.Some?
    requires jumped.position == pair.value < jumped.lineEnd && !jumped.hasSelection
    requires Shown(text, skip, jumped, anchor', pair')
    ensures anchor' == pair && pair' == anchor
  {
    MatchingIsAnInvolution(text, skip, anchor.value, pair.value);
    BracesPairUp(text[anchor.value]);
    assert Matches(text, skip, pair.value, anchor.value);
  }

  /** The part of the editor's state that brace matching works on. */
  class EditBasePrivate {
    var anchorBrace: Option<nat>
    var pairBrace: Option<nat>
    var isExtraSelectionUpdateRequired: bool

    ghost predicate Valid()
      reads this
    {
      anchorBrace.Some? <==> pairBrace.Some?
    }

    method MatchBraces(text: string, skip: nat -> bool, caret: Caret)
      requires Valid() && InText(text, caret)
      modifies this
      ensures Valid()
      ensures Shown(text, skip, caret, anchorBrace, pairBrace)
      ensures ShowsPartners(text, skip, caret, anchorBrace, pairBrace)
      ensures isExtraSelectionUpdateRequired <==>
                old(isExtraSelectionUpdateRequired) || old(anchorBrace).Some? || anchorBrace.Some?
    {
      hide ShowsPartners, Balanced;
      forall anchor, pair | Shown(text, skip, caret, anchor, pair)
        ensures ShowsPartners(text, skip, caret, anchor, pair)
      {
        ShownArePartners(text, skip, caret, anchor, pair);
      }
      if anchorBrace.Some? {
        anchorBrace, pairBrace := None, None;
        isExtraSelectionUpdateRequired := true;
      }
      if caret.hasSelection {
        return;
      }
      var pos := caret.position;
      var brace := NextChar(text, caret);
      var pair := CheckBraceMatch(brace);
      if !pair.IsBrace() {
        brace := PrevChar(text, caret);
        pair := CheckBraceMatch(brace);
        if !pair.IsBrace() {
          return;
        }
        pos := pos - 1;
      }
      if skip(pos) {
        return;
      }
      BracesPairUp(brace);
      var matchPos;
      if pair.isBackwardSearch {
        matchPos := ScanBackward(text, skip, Kind(pair.c, brace), pos);
      } else {
        matchPos := ScanForward(text, skip, Kind(brace, pair.c), pos);
      }
      if matchPos == -1 {
        return;
      }
      assert Matches(text, skip, pos, matchPos);
      anchorBrace, pairBrace := Some(pos), Some(matchPos);
      isExtraSelectionUpdateRequired := true;
    }
  }
}
