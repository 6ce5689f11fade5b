/**
 * The y/n confirmation rule every gate of the vault uses: the answer line is lower-cased,
 * trimmed, and accepted only when what is left is "y" or "yes".
 */
module Prompt {
  import opened Wrappers
  import opened GoStrings

  /** "y" */
  const Y: Bytes := [121]
  /** "yes" */
  const Yes: Bytes := [121, 101, 115]

  /** `confirm = strings.TrimSpace(strings.ToLower(confirm)); confirm == "y" || confirm == "yes"` */
  predicate IsConfirmed(answer: Bytes) {
    var a := TrimSpace(ToLower(answer));
    a == Y || a == Yes
  }

  /**
   * A passphrase typed at a hidden prompt: what `term.ReadPassword` returns, trimmed. Put
   * and Get discard the read error, so a failed read (None) stands for the empty passphrase.
   */
  function TypedPassphrase(read: Option<Bytes>): Bytes {
    TrimSpace(read.GetOr([]))
  }

  /** `w` spells "y" or "yes" in any mix of upper and lower case. */
  predicate SpellsYes(w: Bytes) {
    ToLower(w) == Y || ToLower(w) == Yes
  }

  /**
   * An answer confirms exactly when it is "y" or "yes", in any case, surrounded by nothing
   * but white space.
   */
  lemma ConfirmedIff(answer: Bytes)
    ensures IsConfirmed(answer) <==> exists w :: PadsWithSpace(answer, w) && SpellsYes(w)
  {
    if IsConfirmed(answer) {
      var w := ConfirmedCore(answer);
    }
    if w :| PadsWithSpace(answer, w) && SpellsYes(w) {
      PaddedYesConfirms(answer, w);
    }
  }

  /** The ==> half: the trimmed answer comes from a case-variant of "y"/"yes" padded with white space. */
  lemma ConfirmedCore(answer: Bytes) returns (w: Bytes)
    requires IsConfirmed(answer)
    ensures PadsWithSpace(answer, w) && SpellsYes(w)
  {
    var t := TrimSpace(ToLower(answer));
    assert PadsWithSpace(ToLower(answer), t);
    w := UnlowerCore(answer, t);
  }

  /** A core found in the lower-cased answer comes from the same slice of the answer itself. */
  lemma UnlowerCore(answer: Bytes, t: Bytes) returns (w: Bytes)
    requires PadsWithSpace(ToLower(answer), t) && (t == Y || t == Yes)
    ensures PadsWithSpace(answer, w) && SpellsYes(w)
  {
    var i := PadsWithSpaceElim(ToLower(answer), t);
    w := UnlowerAt(answer, t, i);
    PadsWithSpaceIntro(answer, w, i);
  }

  lemma UnlowerAt(answer: Bytes, t: Bytes, i: nat) returns (w: Bytes)
    requires i + |t| <= |answer| && ToLower(answer)[i..i + |t|] == t && (t == Y || t == Yes)
    requires IsSpaceRun(ToLower(answer)[..i]) && IsSpaceRun(ToLower(answer)[i + |t|..])
    ensures i + |w| <= |answer| && w == answer[i..i + |w|] && SpellsYes(w)
    ensures IsSpaceRun(answer[..i]) && IsSpaceRun(answer[i + |w|..])
  {
    var j := i + |t|;
    w := answer[i..j];
    assert |w| == |t| && i + |w| == j;
    UnlowerWord(answer, t, i, j);
    UnlowerPrefix(answer, i);
    UnlowerSuffix(answer, j);
  }

  lemma UnlowerWord(answer: Bytes, t: Bytes, i: nat, j: nat)
    requires i <= j <= |answer| && ToLower(answer)[i..j] == t && (t == Y || t == Yes)
    ensures SpellsYes(answer[i..j])
  {
    ToLowerSlice(answer, i, j);
  }

  lemma UnlowerPrefix(a: Bytes, i: nat)
    requires i <= |a| && IsSpaceRun(ToLower(a)[..i])
    ensures IsSpaceRun(a[..i])
  {
    ToLowerSlice(a, 0, i);
    assert a[0..i] == a[..i] && ToLower(a)[0..i] == ToLower(a)[..i];
    LowerSpaceRunWasSpaceRun(a[..i]);
  }

  lemma UnlowerSuffix(a: Bytes, j: nat)
    requires j <= |a| && IsSpaceRun(ToLower(a)[j..])
    ensures IsSpaceRun(a[j..])
  {
    ToLowerSlice(a, j, |a|);
    assert a[j..|a|] == a[j..] && ToLower(a)[j..|a|] == ToLower(a)[j..];
    LowerSpaceRunWasSpaceRun(a[j..]);
  }

  /** The <== half: white space, then "y"/"yes" in any case, then white space, is accepted. */
  lemma PaddedYesConfirms(answer: Bytes, w: Bytes)
    requires PadsWithSpace(answer, w) && SpellsYes(w)
    ensures IsConfirmed(answer)
  {
    var lead, trail := SplitPadding(answer, w);
    var c := ToLower(w);
    LowerOfPadded(lead, w, trail);
    TrimOfPaddedYes(lead, c, trail);
    assert TrimSpace(ToLower(answer)) == c;
  }

  lemma SplitPadding(s: Bytes, core: Bytes) returns (lead: Bytes, trail: Bytes)
    requires PadsWithSpace(s, core)
    ensures s == lead + core + trail && IsSpaceRun(lead) && IsSpaceRun(trail)
  {
    var i := PadsWithSpaceElim(s, core);
    lead, trail := s[..i], s[i + |core|..];
    ThreeWaySplit(s, i, i + |core|);
  }

  lemma ThreeWaySplit(s: Bytes, i: nat, j: nat)
    requires i <= j <= |s|
    ensures s == s[..i] + s[i..j] + s[j..]
  {
    assert s[..j] == s[..i] + s[i..j];
  }

  lemma LowerOfPadded(lead: Bytes, w: Bytes, trail: Bytes)
    requires IsSpaceRun(lead) && IsSpaceRun(trail)
    ensures ToLower(lead + w + trail) == lead + (ToLower(w) + trail)
  {
    ToLowerAppend(lead + w, trail);
    ToLowerAppend(lead, w);
    SpaceRunIsLowerCase(lead);
    SpaceRunIsLowerCase(trail);
  }

  lemma TrimOfPaddedYes(lead: Bytes, c: Bytes, trail: Bytes)
    requires IsSpaceRun(lead) && IsSpaceRun(trail)
    requires c == Y || c == Yes
    ensures TrimSpace(lead + (c + trail)) == c
  {
    var left := TrimLeftSpace(lead + (c + trail));
    TrimLeftSkipsRun(lead, c + trail);
    StartsWithLetter(c + trail);
    assert left == c + trail;
    TrimRightSkipsRun(c, trail);
    EndsWithLetter(c);
  }

  /** "y" and "yes" have no white space to trim on the right. */
  lemma EndsWithLetter(c: Bytes)
    requires c == Y || c == Yes
    ensures TrimRightSpace(c) == c
  {
    NoTrailingSpace(c);
  }

  lemma NoTrailingSpace(c: Bytes)
    requires c == Y || c == Yes
    ensures TrailingSpaceLen(c) == 0
  {
  }

  /** Nothing that starts with 'y' starts with a white-space rune. */
  lemma StartsWithLetter(s: Bytes)
    requires |s| > 0 && s[0] == 121
    ensures LeadingSpaceLen(s) == 0
  {
  }
}
