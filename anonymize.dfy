/** The servers' keyword anonymiser: `text.replace(keyword, 'X' * len(keyword))`, the
    name of the output file, and the reply that names both files. */
module Anonymize {
  import opened ByteStrings

  const X: byte := 88

  const AnonSuffix: Bytes := [95, 97, 110, 111, 110, 46, 116, 120, 116]  // _anon.txt
  const TxtSuffix: Bytes := [46, 116, 120, 116]  // .txt
  const ReplyHead: Bytes := [70, 105, 108, 101, 32]  // "File "
  const ReplyMiddle: Bytes := [32, 97, 110, 111, 110, 121, 109, 105, 122, 101, 100, 46, 32, 79, 117, 116, 112, 117, 116, 32, 102, 105, 108, 101, 32, 105, 115, 32]
    // " anonymized. Output file is "

  function Xs(n: nat): (r: Bytes)
    ensures |r| == n && forall i :: 0 <= i < n ==> r[i] == X
  {
    seq(n, _ => X)
  }

  /** The keyword occurs in `text` at position `s`. */
  predicate OccursAt(text: Bytes, kw: Bytes, s: int)
  {
    0 <= s && s + |kw| <= |text| && text[s..s + |kw|] == kw
  }

  /** Python's `replace`, scanning left to right: each occurrence found is overwritten
      with as many `X` bytes and the scan resumes after it, so occurrences never
      overlap. An empty keyword is replaced by the empty string everywhere, which
      leaves the text as it is. */
  function Anonymized(text: Bytes, kw: Bytes): (r: Bytes)
    ensures |r| == |text|
    ensures forall i :: 0 <= i < |r| ==> r[i] == text[i] || r[i] == X
    decreases |text|
  {
    if kw == [] || |text| < |kw| then text
    else if text[..|kw|] == kw then Xs(|kw|) + Anonymized(text[|kw|..], kw)
    else [text[0]] + Anonymized(text[1..], kw)
  }

  lemma OccursShift(text: Bytes, k: nat, kw: Bytes, s: int)
    requires k <= |text| && OccursAt(text[k..], kw, s)
    ensures OccursAt(text, kw, s + k)
  {
    assert text[s + k..s + k + |kw|] == text[k..][s..s + |kw|];
  }

  /** A byte changes only inside an occurrence of the keyword. */
  lemma {:induction false} AnonChangesOnlyKeyword(text: Bytes, kw: Bytes, i: nat)
    requires i < |text| && Anonymized(text, kw)[i] != text[i]
    ensures exists s :: s <= i < s + |kw| && OccursAt(text, kw, s)
    decreases |text|
  {
    if kw == [] || |text| < |kw| {
    } else if text[..|kw|] == kw {
      if i < |kw| {
        assert OccursAt(text, kw, 0);
      } else {
        var rest := text[|kw|..];
        AnonStepAt(text, kw, |kw|, i);
        AnonChangesOnlyKeyword(rest, kw, i - |kw|);
        var s :| s <= i - |kw| < s + |kw| && OccursAt(rest, kw, s);
        OccursShift(text, |kw|, kw, s);
      }
    } else {
      assert i > 0;
      var rest := text[1..];
      AnonStepAt(text, kw, 1, i);
      AnonChangesOnlyKeyword(rest, kw, i - 1);
      var s :| s <= i - 1 < s + |kw| && OccursAt(rest, kw, s);
      OccursShift(text, 1, kw, s);
    }
  }

  /** Past the first step of the scan (a replaced occurrence of `k = |kw|` bytes, or
      one byte kept), each output byte is the anonymised rest's. */
  lemma AnonStepAt(text: Bytes, kw: Bytes, k: nat, i: nat)
    requires kw != [] && |kw| <= |text| && k <= i < |text|
    requires if text[..|kw|] == kw then k == |kw| else k == 1
    ensures Anonymized(text, kw)[i] == Anonymized(text[k..], kw)[i - k]
  {
    var rest := Anonymized(text[k..], kw);
    if k == |kw| && text[..|kw|] == kw {
      IndexPastHead(Anonymized(text, kw), Xs(|kw|), rest, i);
    } else {
      IndexPastHead(Anonymized(text, kw), [text[0]], rest, i);
    }
  }

  lemma IndexPastHead(whole: Bytes, head: Bytes, rest: Bytes, i: nat)
    requires whole == head + rest && |head| <= i < |whole|
    ensures whole[i] == rest[i - |head|]
  {
  }

  /** A text without the keyword, or any text with an empty keyword, comes back
      unchanged. */
  lemma AnonWithoutKeyword(text: Bytes, kw: Bytes)
    requires kw == [] || forall s :: !OccursAt(text, kw, s)
    ensures Anonymized(text, kw) == text
  {
    if kw != [] {
      var r := Anonymized(text, kw);
      forall i | 0 <= i < |text| ensures r[i] == text[i] {
        if r[i] != text[i] {
          AnonChangesOnlyKeyword(text, kw, i);
        }
      }
    }
  }

  /** When the keyword is not empty and has no `X` in it, no occurrence of it is
      left in the anonymised text. */
  lemma {:induction false} AnonLeavesNoKeyword(text: Bytes, kw: Bytes, s: int)
    requires kw != [] && X !in kw
    ensures !OccursAt(Anonymized(text, kw), kw, s)
    decreases |text|
  {
    var r := Anonymized(text, kw);
    if 0 <= s && s + |kw| <= |r| {
      if text[..|kw|] == kw {
        if s < |kw| {
          XsAtStart(text, kw, s);
        } else {
          AnonAfterKeyword(text, kw, s);
          AnonLeavesNoKeyword(text[|kw|..], kw, s - |kw|);
        }
      } else if s == 0 {
        NoMatchAtStart(text, kw);
      } else {
        AnonAfterByte(text, kw, s);
        AnonLeavesNoKeyword(text[1..], kw, s - 1);
      }
    }
  }

  /** Past a replaced occurrence at the start, the output matches where the
      anonymised rest does. */
  lemma AnonAfterKeyword(text: Bytes, kw: Bytes, s: int)
    requires kw != [] && |kw| <= |text| && text[..|kw|] == kw && s >= |kw|
    ensures OccursAt(Anonymized(text, kw), kw, s) <==> OccursAt(Anonymized(text[|kw|..], kw), kw, s - |kw|)
  {
    var rest := Anonymized(text[|kw|..], kw);
    assert Anonymized(text, kw) == Xs(|kw|) + rest;
    OccursInTailIff(Xs(|kw|), rest, kw, s);
  }

  /** Past a first byte kept as it is, the output matches where the anonymised rest does. */
  lemma AnonAfterByte(text: Bytes, kw: Bytes, s: int)
    requires kw != [] && |kw| <= |text| && text[..|kw|] != kw && s >= 1
    ensures OccursAt(Anonymized(text, kw), kw, s) <==> OccursAt(Anonymized(text[1..], kw), kw, s - 1)
  {
    var rest := Anonymized(text[1..], kw);
    assert Anonymized(text, kw) == [text[0]] + rest;
    OccursInTailIff([text[0]], rest, kw, s);
  }

  /** A window starting inside a replaced occurrence starts on an `X`, which an
      `X`-free keyword does not. */
  lemma XsAtStart(text: Bytes, kw: Bytes, s: int)
    requires kw != [] && X !in kw && |kw| <= |text| && text[..|kw|] == kw && 0 <= s < |kw|
    ensures !OccursAt(Anonymized(text, kw), kw, s)
  {
    var r := Anonymized(text, kw);
    assert r == Xs(|kw|) + Anonymized(text[|kw|..], kw);
    if s + |kw| <= |r| {
      assert r[s..s + |kw|][0] == X && kw[0] in kw;
    }
  }

  /** Where the text does not start with the keyword, the output does not either: at
      a byte where they differ, the output holds that byte or an `X`. */
  lemma NoMatchAtStart(text: Bytes, kw: Bytes)
    requires kw != [] && X !in kw && |kw| <= |text| && text[..|kw|] != kw
    ensures !OccursAt(Anonymized(text, kw), kw, 0)
  {
    var r := Anonymized(text, kw);
    var head := text[..|kw|];
    assert |head| == |kw| && head != kw;
    var i :| 0 <= i < |kw| && head[i] != kw[i];
    assert kw[i] in kw;
    assert r[..|kw|][i] != kw[i];
  }

  lemma OccursInTailIff(head: Bytes, tail: Bytes, kw: Bytes, s: int)
    requires s >= |head|
    ensures OccursAt(head + tail, kw, s) <==> OccursAt(tail, kw, s - |head|)
  {
    if s + |kw| <= |head + tail| {
      assert tail[s - |head|..s - |head| + |kw|] == (head + tail)[s..s + |kw|];
    }
  }

  /** Occurrences are taken left to right and do not overlap: with keyword `aa`,
      `aaa` becomes `XXa`. */
  lemma AnonLeftToRight()
    ensures Anonymized([97, 97, 97], [97, 97]) == [X, X, 97]  // aaa, aa, XXa
  {
    var aaa: Bytes, aa: Bytes := [97, 97, 97], [97, 97];
    assert aaa[..2] == aa;
    assert aaa[2..] == [aaa[2]];
    assert Xs(2) == [X, X];
  }

  /** Where the left-to-right scan, started at `p`, finds the keyword: the first
      occurrence at or after `p`, then the first at or after the end of that one, and
      so on. */
  function MatchStarts(text: Bytes, kw: Bytes, p: nat): (starts: seq<nat>)
    requires kw != []
    ensures forall j :: 0 <= j < |starts| ==> p <= starts[j] && OccursAt(text, kw, starts[j])
    ensures forall j :: 0 < j < |starts| ==> starts[j - 1] + |kw| <= starts[j]
    decreases |text| - p
  {
    if p + |kw| > |text| then []
    else if text[p..p + |kw|] == kw then [p] + MatchStarts(text, kw, p + |kw|)
    else MatchStarts(text, kw, p + 1)
  }

  /** Byte `i` lies inside the match of `n` bytes starting at one of `starts`. */
  predicate InMatch(starts: seq<nat>, n: nat, i: int)
  {
    exists j :: 0 <= j < |starts| && starts[j] <= i < starts[j] + n
  }

  /** Position `s` is one of `starts`, or lies strictly inside the `n`-byte match
      starting at one of them. */
  predicate Covered(starts: seq<nat>, n: nat, s: int)
  {
    s in starts || exists j :: 0 <= j < |starts| && starts[j] < s < starts[j] + n
  }

  /** The scan skips no occurrence: one it does not take overlaps a match it took. */
  lemma {:induction false} MatchStartsComplete(text: Bytes, kw: Bytes, p: nat, s: nat)
    requires kw != [] && p <= s && OccursAt(text, kw, s)
    ensures Covered(MatchStarts(text, kw, p), |kw|, s)
    decreases |text| - p
  {
    if OccursAt(text, kw, p) {
      if s >= p + |kw| {
        MatchStartsComplete(text, kw, p + |kw|, s);
      }
      CompleteAtMatch(text, kw, p, s);
    } else {
      MatchStartsComplete(text, kw, p + 1, s);
      CompleteAfterByte(text, kw, p, s);
    }
  }

  lemma CompleteAtMatch(text: Bytes, kw: Bytes, p: nat, s: nat)
    requires kw != [] && OccursAt(text, kw, p) && p <= s
    requires s < p + |kw| || Covered(MatchStarts(text, kw, p + |kw|), |kw|, s)
    ensures Covered(MatchStarts(text, kw, p), |kw|, s)
  {
    ScanTakesMatch(text, kw, p);
    CoveredCons(p, MatchStarts(text, kw, p + |kw|), |kw|, s);
  }

  lemma CompleteAfterByte(text: Bytes, kw: Bytes, p: nat, s: nat)
    requires kw != [] && p + |kw| <= |text| && !OccursAt(text, kw, p)
    requires Covered(MatchStarts(text, kw, p + 1), |kw|, s)
    ensures Covered(MatchStarts(text, kw, p), |kw|, s)
  {
    ScanKeepsByte(text, kw, p);
  }

  /** A match taken at `p` covers its own bytes and keeps what the later ones cover. */
  lemma CoveredCons(p: nat, rest: seq<nat>, n: nat, s: int)
    requires p <= s < p + n || Covered(rest, n, s)
    ensures Covered([p] + rest, n, s)
  {
    var starts := [p] + rest;
    if s == p {
      assert starts[0] == s;
    } else if p < s < p + n {
      assert starts[0] < s < starts[0] + n;
    } else if s in rest {
      assert s in starts;
    } else {
      var j :| 0 <= j < |rest| && rest[j] < s < rest[j] + n;
      assert starts[j + 1] == rest[j];
    }
  }

  /** Past a match at `p`, the matches after it decide alone whether a byte is masked. */
  lemma InMatchPast(p: nat, rest: seq<nat>, n: nat, i: int)
    requires p + n <= i
    ensures InMatch([p] + rest, n, i) <==> InMatch(rest, n, i)
  {
    var starts := [p] + rest;
    if InMatch(starts, n, i) {
      var j :| 0 <= j < |starts| && starts[j] <= i < starts[j] + n;
      assert j > 0 && rest[j - 1] == starts[j];
    }
    if InMatch(rest, n, i) {
      var j :| 0 <= j < |rest| && rest[j] <= i < rest[j] + n;
      assert starts[j + 1] == rest[j];
    }
  }

  /** From scan position `p` on, output byte `i` is an `X` exactly inside a match the
      scan takes, and the text's own byte everywhere else. */
  predicate MasksFrom(text: Bytes, kw: Bytes, p: nat, i: nat)
    requires kw != [] && p <= i < |text|
  {
    Anonymized(text[p..], kw)[i - p] == if InMatch(MatchStarts(text, kw, p), |kw|, i) then X else text[i]
  }

  lemma {:induction false} AnonMasksFrom(text: Bytes, kw: Bytes, p: nat, i: nat)
    requires kw != [] && p <= i < |text|
    ensures MasksFrom(text, kw, p, i)
    decreases |text| - p
  {
    if p + |kw| > |text| {
      ScanAtEnd(text, kw, p);
    } else if OccursAt(text, kw, p) {
      if i < p + |kw| {
        MaskedInMatch(text, kw, p, i);
      } else {
        AnonMasksFrom(text, kw, p + |kw|, i);
        MaskedPastMatch(text, kw, p, i);
      }
    } else if i == p {
      KeptAtScan(text, kw, p);
    } else {
      AnonMasksFrom(text, kw, p + 1, i);
      KeptPastScan(text, kw, p, i);
    }
  }

  lemma MaskedInMatch(text: Bytes, kw: Bytes, p: nat, i: nat)
    requires kw != [] && p <= i < p + |kw| <= |text| && text[p..p + |kw|] == kw
    ensures MasksFrom(text, kw, p, i)
  {
    ScanTakesMatch(text, kw, p);
    IndexInHead(Anonymized(text[p..], kw), Xs(|kw|), Anonymized(text[p + |kw|..], kw), i - p);
    var starts := MatchStarts(text, kw, p);
    assert starts[0] <= i < starts[0] + |kw|;
  }

  lemma MaskedPastMatch(text: Bytes, kw: Bytes, p: nat, i: nat)
    requires kw != [] && p + |kw| <= i < |text| && text[p..p + |kw|] == kw
    requires MasksFrom(text, kw, p + |kw|, i)
    ensures MasksFrom(text, kw, p, i)
  {
    ScanTakesMatch(text, kw, p);
    IndexPastHead(Anonymized(text[p..], kw), Xs(|kw|), Anonymized(text[p + |kw|..], kw), i - p);
    InMatchPast(p, MatchStarts(text, kw, p + |kw|), |kw|, i);
  }

  lemma KeptAtScan(text: Bytes, kw: Bytes, p: nat)
    requires kw != [] && p + |kw| <= |text| && text[p..p + |kw|] != kw
    ensures MasksFrom(text, kw, p, p)
  {
    ScanKeepsByte(text, kw, p);
    IndexInHead(Anonymized(text[p..], kw), [text[p]], Anonymized(text[p + 1..], kw), 0);
  }

  lemma KeptPastScan(text: Bytes, kw: Bytes, p: nat, i: nat)
    requires kw != [] && p < i < |text| && p + |kw| <= |text| && text[p..p + |kw|] != kw
    requires MasksFrom(text, kw, p + 1, i)
    ensures MasksFrom(text, kw, p, i)
  {
    ScanKeepsByte(text, kw, p);
    IndexPastHead(Anonymized(text[p..], kw), [text[p]], Anonymized(text[p + 1..], kw), i - p);
  }

  /** Fewer than `len(keyword)` bytes left: no match, and the rest is kept. */
  lemma ScanAtEnd(text: Bytes, kw: Bytes, p: nat)
    requires kw != [] && p <= |text| < p + |kw|
    ensures MatchStarts(text, kw, p) == [] && Anonymized(text[p..], kw) == text[p..]
    ensures forall i :: p <= i < |text| ==> MasksFrom(text, kw, p, i)
  {
  }

  /** A match at the scan position: it is taken, masked, and the scan jumps past it. */
  lemma ScanTakesMatch(text: Bytes, kw: Bytes, p: nat)
    requires kw != [] && p + |kw| <= |text| && text[p..p + |kw|] == kw
    ensures MatchStarts(text, kw, p) == [p] + MatchStarts(text, kw, p + |kw|)
    ensures Anonymized(text[p..], kw) == Xs(|kw|) + Anonymized(text[p + |kw|..], kw)
  {
    var t := text[p..];
    assert t[..|kw|] == kw && t[|kw|..] == text[p + |kw|..];
  }

  /** No match at the scan position: its byte is kept and the scan moves on by one. */
  lemma ScanKeepsByte(text: Bytes, kw: Bytes, p: nat)
    requires kw != [] && p + |kw| <= |text| && text[p..p + |kw|] != kw
    ensures MatchStarts(text, kw, p) == MatchStarts(text, kw, p + 1)
    ensures Anonymized(text[p..], kw) == [text[p]] + Anonymized(text[p + 1..], kw)
  {
    var t := text[p..];
    assert t[..|kw|] == text[p..p + |kw|] && t[1..] == text[p + 1..];
  }

  lemma IndexInHead(whole: Bytes, head: Bytes, rest: Bytes, i: nat)
    requires whole == head + rest && i < |head|
    ensures whole[i] == head[i]
  {
  }

  /** `replace` byte by byte: an output byte is an `X` exactly when it lies inside a
      match the left-to-right scan takes; every other byte is the text's. */
  lemma AnonMasks(text: Bytes, kw: Bytes, i: nat)
    requires kw != [] && i < |text|
    ensures Anonymized(text, kw)[i] == if InMatch(MatchStarts(text, kw, 0), |kw|, i) then X else text[i]
  {
    assert text[0..] == text;
    AnonMasksFrom(text, kw, 0, i);
    assert MasksFrom(text, kw, 0, i);
  }

  /** An occurrence that no earlier occurrence overlaps becomes `len(keyword)` bytes `X`. */
  lemma AnonMasksOccurrence(text: Bytes, kw: Bytes, s: nat)
    requires kw != [] && OccursAt(text, kw, s)
    requires forall q :: s - |kw| < q < s ==> !OccursAt(text, kw, q)
    ensures Anonymized(text, kw)[s..s + |kw|] == Xs(|kw|)
  {
    var starts := MatchStarts(text, kw, 0);
    MatchStartsComplete(text, kw, 0, s);
    assert Covered(starts, |kw|, s);
    assert s in starts;
    var j :| 0 <= j < |starts| && starts[j] == s;
    var r := Anonymized(text, kw);
    forall k | s <= k < s + |kw| ensures r[k] == X {
      AnonMasks(text, kw, k);
      assert starts[j] <= k < starts[j] + |kw|;
    }
    assert r[s..s + |kw|] == Xs(|kw|);
  }

  /** `fileName[:-4] + '_anon.txt'`: drop the last four characters (all of a shorter
      name) and append `_anon.txt`. */
  function AnonFileName(name: Bytes): (r: Bytes)
    ensures |r| == (if |name| >= 4 then |name| - 4 else 0) + |AnonSuffix|
    ensures r[|r| - |AnonSuffix|..] == AnonSuffix
    ensures r[..|r| - |AnonSuffix|] == name[..|r| - |AnonSuffix|]
  {
    var stem := if |name| >= 4 then name[..|name| - 4] else [];
    stem + AnonSuffix
  }

  /** A byte that neither the name nor `_anon.txt` holds is not in the output name. */
  lemma AnonFileNameAvoids(name: Bytes, b: byte)
    requires b !in name && b !in AnonSuffix
    ensures b !in AnonFileName(name)
  {
    var stem := if |name| >= 4 then name[..|name| - 4] else [];
    assert b !in stem by { assert forall c :: c in stem ==> c in name; }
  }

  /** For `<stem>.txt` the output file is `<stem>_anon.txt`. */
  lemma AnonNameOfTxt(stem: Bytes)
    ensures AnonFileName(stem + TxtSuffix) == stem + AnonSuffix
  {
    assert (stem + TxtSuffix)[..|stem|] == stem;
  }

  /** Anonymising `<stem>.txt` writes `<stem>_anon.txt` and names both files in the reply. */
  lemma AnonOfTxt(stem: Bytes, kw: Bytes, text: Bytes)
    ensures Anon(stem + TxtSuffix, kw, text)
      == Report(stem + AnonSuffix, Anonymized(text, kw), ReplyHead + stem + TxtSuffix + ReplyMiddle + stem + AnonSuffix)
  {
    AnonNameOfTxt(stem);
  }

  /** `'File ' + fileName + ' anonymized. Output file is ' + anon_file_name`. */
  function Reply(name: Bytes, anonName: Bytes): Bytes
  {
    ReplyHead + name + ReplyMiddle + anonName
  }

  /** What one anonymisation produces: the output file's name and text, and the reply. */
  datatype Report = Report(outName: Bytes, outText: Bytes, reply: Bytes)

  /** The pure part of `anon`: `name` is the file name the reply shows, and the one
      the output name is derived from. */
  function Anon(name: Bytes, kw: Bytes, text: Bytes): Report
  {
    var outName := AnonFileName(name);
    Report(outName, Anonymized(text, kw), Reply(name, outName))
  }
}
