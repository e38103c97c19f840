/**
 * MakeLegalLEFSyntax: LEF identifiers may not contain `; # space - * $` or a
 * newline; each such character is replaced by `_`. A name with no illegal
 * character is returned as it is (the caller compares pointers to decide
 * whether to free); in this value model that is the `same` flag.
 *
 * Two defects of the C loops are modelled as written next to the corrected
 * behaviour: the detection loop never leaves its outer loop early, so only
 * the last character decides; and the replacement loop's guard tests the
 * pointer instead of the character, so a legal character runs the scan off
 * the end of the table.
 */
module Sanitize {
  import opened LefTypes

  /** The illegal characters, in the order of the table `badLEFchars`. */
  const BadChars: string := ";# -*$\n"

  /** The C array behind `badLEFchars`: the characters and the terminating NUL. */
  const BadTable: seq<char> := BadChars + ['\0']

  predicate IsBad(c: char) { c in BadChars }

  /** A LEF-legal identifier. */
  predicate IsLegal(s: string) { forall i :: 0 <= i < |s| ==> !IsBad(s[i]) }

  function LegalChar(c: char): char { if IsBad(c) then '_' else c }

  /** The sanitised name, as the routine's documentation describes it. */
  function Legalize(s: string): (r: string)
    ensures |r| == |s|
    decreases |s|
  {
    if s == [] then [] else [LegalChar(s[0])] + Legalize(s[1..])
  }

  /** Position by position: illegal characters become `_`, all others stay. */
  lemma {:induction false} LegalizeSpec(s: string)
    ensures forall i :: 0 <= i < |s| ==> Legalize(s)[i] == LegalChar(s[i])
    decreases |s|
  {
    if s != [] {
      LegalizeSpec(s[1..]);
      assert forall i :: 1 <= i < |s| ==> Legalize(s)[i] == Legalize(s[1..])[i - 1];
    }
  }

  /** The result differs from the input exactly at the illegal positions, and
      holds `_` there. */
  lemma LegalizeChangesOnlyIllegal(s: string)
    ensures |Legalize(s)| == |s|
    ensures forall i :: 0 <= i < |s| ==> (Legalize(s)[i] != s[i] <==> IsBad(s[i]))
    ensures forall i :: 0 <= i < |s| && IsBad(s[i]) ==> Legalize(s)[i] == '_'
  {
    LegalizeSpec(s);
  }

  /** The result is a legal identifier. */
  lemma LegalizeIsLegal(s: string)
    ensures IsLegal(Legalize(s))
  {
    LegalizeSpec(s);
  }

  /** A name is left alone exactly when it is already legal. */
  lemma LegalizeFixedIffLegal(s: string)
    ensures Legalize(s) == s <==> IsLegal(s)
  {
    LegalizeSpec(s);
    if IsLegal(s) {
      assert forall i :: 0 <= i < |s| ==> Legalize(s)[i] == s[i];
    } else {
      var i :| 0 <= i < |s| && IsBad(s[i]);
      assert Legalize(s)[i] == '_' != s[i];
    }
  }

  /** Sanitising twice is sanitising once. */
  lemma LegalizeIdempotent(s: string)
    ensures Legalize(Legalize(s)) == Legalize(s)
  {
    LegalizeIsLegal(s);
    LegalizeFixedIffLegal(Legalize(s));
  }

  /** The inner table scan of both loops, stopping at the NUL: the position of
      the first entry equal to `c`, or |BadChars| when there is none. */
  function InnerScan(c: char, b: nat): (k: nat)
    requires b <= |BadChars|
    ensures b <= k <= |BadChars|
    ensures k < |BadChars| ==> BadChars[k] == c
    ensures k == |BadChars| <==> c !in BadChars[b..]
    decreases |BadChars| - b
  {
    if b == |BadChars| || BadChars[b] == c then b else InnerScan(c, b + 1)
  }

  /** The scan from the start of the table stops before the NUL exactly for
      an illegal character. */
  lemma ScanIsBad(c: char)
    ensures InnerScan(c, 0) < |BadChars| <==> IsBad(c)
  {
    assert BadChars[0..] == BadChars;
  }

  /** The routine with the early exit the detection loop needs and the
      character test the replacement loop needs. */
  method MakeLegalLEFSyntax(text: string) returns (r: string, same: bool)
    ensures same <==> IsLegal(text)
    ensures same ==> r == text
    ensures r == Legalize(text)
  {
    var legal := DetectIllegal(text);
    LegalizeFixedIffLegal(text);
    if legal {
      return text, true;
    }
    r := ReplaceIllegal(text);
    return r, false;
  }

  /** The first loop of the routine, read as intended: it stops at the first
      character the table scan finds, and reports whether it got to the end. */
  method DetectIllegal(text: string) returns (legal: bool)
    ensures legal <==> IsLegal(text)
  {
    var i := 0;
    while i < |text| && InnerScan(text[i], 0) == |BadChars|
      invariant 0 <= i <= |text|
      invariant forall k :: 0 <= k < i ==> !IsBad(text[k])
    {
      ScanIsBad(text[i]);
      i := i + 1;
    }
    if i < |text| {
      ScanIsBad(text[i]);
    }
    return i == |text|;
  }

  /** The second loop, on the copy: every character the table scan finds
      becomes `_`. */
  method ReplaceIllegal(text: string) returns (buf: string)
    ensures |buf| == |text|
    ensures forall k :: 0 <= k < |text| ==> buf[k] == LegalChar(text[k])
    ensures buf == Legalize(text)
  {
    buf := text;
    var j := 0;
    while j < |buf|
      invariant |buf| == |text|
      invariant 0 <= j <= |buf|
      invariant forall k :: 0 <= k < j ==> buf[k] == LegalChar(text[k])
      invariant forall k :: j <= k < |buf| ==> buf[k] == text[k]
    {
      ScanIsBad(buf[j]);
      if InnerScan(buf[j], 0) < |BadChars| {
        buf := buf[j := '_'];
      }
      j := j + 1;
    }
    LegalizeSpec(text);
  }


  // ---------------------------------------------------------------------
  // As written

  /** The detection loop as written: the inner scan runs for every character
      and nothing leaves the outer loop, so `bptr` ends up describing the last
      character only. Returns the character whose scan `bptr` holds at the
      end, or None when the text is empty and `bptr` is never assigned. */
  function DetectScanAsWritten(text: string, i: nat, scanned: Option<char>): (r: Option<char>)
    requires i <= |text|
    ensures r.None? <==> (i == |text| && scanned.None?)
    ensures i < |text| ==> r == Some(text[|text| - 1])
    ensures i == |text| ==> r == scanned
    decreases |text| - i
  {
    if i == |text| then scanned
    else DetectScanAsWritten(text, i + 1, Some(text[i]))
  }

  /** Whether the routine as written hands back the original name (None: the
      test reads the uninitialised `bptr`). */
  function ReturnsOriginalAsWritten(text: string): (r: Option<bool>)
    ensures r.None? <==> text == []
    ensures text != [] ==> r == Some(!IsBad(text[|text| - 1]))
  {
    match DetectScanAsWritten(text, 0, None)
    case None => None
    case Some(c) => ScanIsBad(c); Some(InnerScan(c, 0) == |BadChars|)
  }

  /** Any name whose last character is legal is returned unchanged, however
      many illegal characters precede it; "a#b" is one. */
  lemma AsWrittenReturnsIllegalName(text: string)
    requires |text| > 0 && !IsBad(text[|text| - 1]) && !IsLegal(text)
    ensures ReturnsOriginalAsWritten(text) == Some(true)
    ensures Legalize(text) != text
  {
    LegalizeFixedIffLegal(text);
  }

  lemma AsWrittenExample()
    ensures ReturnsOriginalAsWritten("a#b") == Some(true)
    ensures Legalize("a#b") == "a_b"
  {
    assert !IsBad('b');
    assert IsBad('#');
    LegalizeSpec("a#b");
  }

  /** The replacement scan as written: its guard compares the pointer with
      '\0', which never stops it, so it ends only at a match. Some(k): matched
      table entry k; None: the scan read past the end of the table. */
  function ReplaceScanAsWritten(c: char, b: nat): (r: Option<nat>)
    requires b <= |BadTable|
    ensures r.Some? ==> b <= r.value < |BadTable| && BadTable[r.value] == c
    decreases |BadTable| - b
  {
    if b == |BadTable| then None
    else if BadTable[b] == c then Some(b)
    else ReplaceScanAsWritten(c, b + 1)
  }

  /** Every legal (non-NUL) character of a copied name sends the scan past the
      end of the table. */
  lemma {:induction false} ReplaceScanOverruns(c: char, b: nat)
    requires b <= |BadTable|
    requires !IsBad(c) && c != '\0'
    ensures ReplaceScanAsWritten(c, b) == None
    decreases |BadTable| - b
  {
    if b < |BadTable| {
      assert BadTable[b] != c by {
        if b < |BadChars| {
          assert BadTable[b] == BadChars[b];
        } else {
          assert BadTable[b] == '\0';
        }
      }
      ReplaceScanOverruns(c, b + 1);
    }
  }
}
