/**
  `Command.translate_file`: read a `.po` file as lines, collect the quoted body
  of every line beginning with `msgid`, remember every line beginning with
  `msgstr` by its index, translate the collected strings in one call, then give
  the k-th `msgstr` line (in ascending line order) the k-th translation between
  its first-quote prefix and last-quote suffix, and emit every other line as it
  was.
 */
module Catalog {
  import opened Wrappers
  import opened Quotes
  import opened Lines

  /** The language every catalog is translated from. */
  const SOURCE_LANGUAGE: string := "en"

  /**
    The translation service, called with the strings, the target language and
    the source language; the program relies on the answers coming back in the
    order of the questions.
   */
  type Translator = (seq<string>, string, string) -> seq<string>

  /** The `IndexError` raised when a `msgstr` line has no translation left. */
  datatype FileError = TranslationMissing(index: nat)

  predicate IsMsgid(line: string) {
    StartsWith(line, "msgid")
  }

  predicate IsMsgstr(line: string) {
    StartsWith(line, "msgstr")
  }

  predicate StrictlyIncreasing(s: seq<nat>) {
    forall i, j :: 0 <= i < j < |s| ==> s[i] < s[j]
  }

  /** The ascending indices of the lines that begin with `tag`. */
  function TaggedIndices(lines: seq<string>, tag: string): (indices: seq<nat>)
    ensures forall k :: 0 <= k < |indices| ==>
      indices[k] < |lines| && StartsWith(lines[indices[k]], tag)
  {
    if |lines| == 0 then []
    else
      var last := |lines| - 1;
      TaggedIndices(lines[..last], tag) + (if StartsWith(lines[last], tag) then [last] else [])
  }

  /** The sorted keys of the `translations` dictionary. */
  function MsgstrIndices(lines: seq<string>): seq<nat> {
    TaggedIndices(lines, "msgstr")
  }

  function MsgidIndices(lines: seq<string>): seq<nat> {
    TaggedIndices(lines, "msgid")
  }

  /** The `strings` list: the quoted body of each `msgid` line, in file order. */
  function Extracted(lines: seq<string>): seq<string> {
    if |lines| == 0 then []
    else
      var last := |lines| - 1;
      Extracted(lines[..last]) + (if IsMsgid(lines[last]) then [QuotedBody(lines[last])] else [])
  }

  /** The quoted bodies of the lines at the given indices. */
  function Bodies(lines: seq<string>, indices: seq<nat>): seq<string>
    requires forall k :: 0 <= k < |indices| ==> indices[k] < |lines|
  {
    seq(|indices|, k requires 0 <= k < |indices| => QuotedBody(lines[indices[k]]))
  }

  /** The number of `msgstr` lines before line `i`: which translation line `i` receives. */
  function Rank(lines: seq<string>, i: nat): nat
    requires i <= |lines|
  {
    |MsgstrIndices(lines[..i])|
  }

  /** Line `i` of the written file. */
  function EmittedLine(lines: seq<string>, translated: seq<string>, i: nat): string
    requires i < |lines| && |MsgstrIndices(lines)| <= |translated|
  {
    if IsMsgstr(lines[i]) then
      RankLocates(lines, i);
      Rewrite(lines[i], translated[Rank(lines, i)])
    else
      lines[i]
  }

  /**
    The file as written back: as many lines as were read, every line that is
    not a `msgstr` line in its place and unchanged.
   */
  function RewrittenFile(lines: seq<string>, translated: seq<string>): (written: seq<string>)
    requires |MsgstrIndices(lines)| <= |translated|
    ensures |written| == |lines|
    ensures forall i :: 0 <= i < |lines| && !IsMsgstr(lines[i]) ==> written[i] == lines[i]
  {
    seq(|lines|, i requires 0 <= i < |lines| => EmittedLine(lines, translated, i))
  }

  /**
    What `translate_file` does to one file: the new lines, or the index error
    raised, before anything is written, when the translator returned fewer
    strings than the file has `msgstr` lines.
   */
  function TranslateFileSpec(lines: seq<string>, translate: Translator, targetLanguage: string)
    : Result<seq<string>, FileError>
  {
    var translated := translate(Extracted(lines), targetLanguage, SOURCE_LANGUAGE);
    if |translated| < |MsgstrIndices(lines)| then Failure(TranslationMissing(|translated|))
    else Success(RewrittenFile(lines, translated))
  }

  // ---------------------------------------------------------------------------
  // The command

  /** `keys = [_ for _ in translations.keys()]; keys.sort()` */
  method SortedKeys(translations: map<nat, string>, bound: nat) returns (keys: seq<nat>)
    requires forall key :: key in translations ==> key < bound
    ensures StrictlyIncreasing(keys)
    ensures forall key :: key in keys <==> key in translations
  {
    keys := [];
    for candidate := 0 to bound
      invariant StrictlyIncreasing(keys)
      invariant forall k :: 0 <= k < |keys| ==> keys[k] < candidate
      invariant forall key :: key in keys <==> key in translations && key < candidate
    {
      if candidate in translations {
        keys := keys + [candidate];
      }
    }
  }

  /**
    The scan of `translate_file`: the quoted body of every `msgid` line, in
    order, and a dictionary from the index of every `msgstr` line to that line.
   */
  method ScanLines(lines: seq<string>) returns (strings: seq<string>, translations: map<nat, string>)
    ensures strings == Extracted(lines)
    ensures forall i: nat :: i in translations <==> i < |lines| && IsMsgstr(lines[i])
    ensures forall i :: i in translations ==> translations[i] == lines[i]
  {
    strings := [];
    translations := map[];
    for index := 0 to |lines|
      invariant strings == Extracted(lines[..index])
      invariant forall i: nat :: i in translations <==> i < index && IsMsgstr(lines[i])
      invariant forall i :: i in translations ==> translations[i] == lines[i]
    {
      var line := lines[index];
      assert lines[..index + 1][..index] == lines[..index];
      if IsMsgid(line) {
        strings := strings + [QuotedBody(line)];
      }
      if IsMsgstr(line) {
        translations := translations[index := line];
      }
    }
    assert lines[..|lines|] == lines;
  }

  /**
    The injection loop of `translate_file`: walking the sorted keys with a
    counter, the k-th key's line gets the k-th translation spliced in; the
    lookup of a translation past the end raises an index error.
   */
  method SpliceTranslations(translations: map<nat, string>, keys: seq<nat>, translated: seq<string>)
    returns (result: Result<map<nat, string>, FileError>)
    requires StrictlyIncreasing(keys)
    requires forall k :: 0 <= k < |keys| ==> keys[k] in translations
    ensures result.Failure? <==> |translated| < |keys|
    ensures result.Failure? ==> result.error == TranslationMissing(|translated|)
    ensures result.Success? ==> result.value.Keys == translations.Keys
    ensures result.Success? ==> forall k :: 0 <= k < |keys| ==>
      result.value[keys[k]] == Rewrite(translations[keys[k]], translated[k])
    ensures result.Success? ==> forall i :: i in translations && i !in keys ==>
      result.value[i] == translations[i]
  {
    var spliced := translations;
    var index := 0;
    while index < |keys|
      invariant 0 <= index <= |keys|
      invariant index <= |translated|
      invariant spliced.Keys == translations.Keys
      invariant forall k :: 0 <= k < index ==>
        spliced[keys[k]] == Rewrite(translations[keys[k]], translated[k])
      invariant forall k :: index <= k < |keys| ==> spliced[keys[k]] == translations[keys[k]]
      invariant forall i :: i in translations && i !in keys ==> spliced[i] == translations[i]
    {
      if index >= |translated| {
        return Failure(TranslationMissing(|translated|));
      }
      var key := keys[index];
      spliced := spliced[key := Rewrite(spliced[key], translated[index])];
      index := index + 1;
    }
    return Success(spliced);
  }

  /** The output loop of `translate_file`: a recorded line where there is one, the read line elsewhere. */
  method EmitLines(lines: seq<string>, translations: map<nat, string>) returns (output: seq<string>)
    ensures |output| == |lines|
    ensures forall i :: 0 <= i < |lines| && i !in translations ==> output[i] == lines[i]
    ensures forall i :: 0 <= i < |lines| && i in translations ==> output[i] == translations[i]
  {
    output := [];
    for index := 0 to |lines|
      invariant |output| == index
      invariant forall i :: 0 <= i < index && i !in translations ==> output[i] == lines[i]
      invariant forall i :: 0 <= i < index && i in translations ==> output[i] == translations[i]
    {
      if index in translations {
        output := output + [translations[index]];
      } else {
        output := output + [lines[index]];
      }
    }
  }

  /** `Command.translate_file`, with the file's lines in and out and the translator as a parameter. */
  method TranslateFile(lines: seq<string>, translate: Translator, targetLanguage: string)
    returns (result: Result<seq<string>, FileError>)
    ensures result == TranslateFileSpec(lines, translate, targetLanguage)
  {
    var strings, translations := ScanLines(lines);
    var translated := translate(strings, targetLanguage, SOURCE_LANGUAGE);
    var keys := SortedKeys(translations, |lines|);
    MsgstrIndicesExact(lines);
    SortedUnique(keys, MsgstrIndices(lines));
    var spliced := SpliceTranslations(translations, keys, translated);
    if spliced.Failure? {
      return Failure(spliced.error);
    }
    var output := EmitLines(lines, spliced.value);
    forall i | 0 <= i < |lines|
      ensures output[i] == EmittedLine(lines, translated, i)
    {
      if IsMsgstr(lines[i]) {
        RankLocates(lines, i);
      }
    }
    assert output == RewrittenFile(lines, translated);
    return Success(output);
  }

  // ---------------------------------------------------------------------------
  // Line indices

  /** The tagged indices are exactly the tagged lines, in ascending order. */
  lemma {:induction false} TaggedIndicesExact(lines: seq<string>, tag: string)
    ensures StrictlyIncreasing(TaggedIndices(lines, tag))
    ensures forall i: nat :: i < |lines| ==> (StartsWith(lines[i], tag) <==> i in TaggedIndices(lines, tag))
  {
    if |lines| > 0 {
      var last := |lines| - 1;
      TaggedIndicesExact(lines[..last], tag);
      forall i: nat | i < last
        ensures lines[..last][i] == lines[i]
      {
      }
    }
  }

  lemma {:induction false} MsgstrIndicesExact(lines: seq<string>)
    ensures StrictlyIncreasing(MsgstrIndices(lines))
    ensures forall i: nat :: i in MsgstrIndices(lines) <==> i < |lines| && IsMsgstr(lines[i])
  {
    TaggedIndicesExact(lines, "msgstr");
  }

  /** Two ascending sequences with the same elements are the same sequence. */
  lemma {:induction false} SortedUnique(a: seq<nat>, b: seq<nat>)
    requires StrictlyIncreasing(a) && StrictlyIncreasing(b)
    requires forall x :: x in a <==> x in b
    ensures a == b
  {
    if |a| > 0 {
      assert a[0] in a;
    }
    if |b| > 0 {
      assert b[0] in b;
    }
    if |a| > 0 {
      assert a[0] == b[0] by {
        assert a[0] in b;
        assert b[0] in a;
      }
      forall x
        ensures x in a[1..] <==> x in b[1..]
      {
        if x in a[1..] {
          InTailOfSorted(a, b, x);
        }
        if x in b[1..] {
          InTailOfSorted(b, a, x);
        }
      }
      SortedUnique(a[1..], b[1..]);
      assert a == [a[0]] + a[1..];
      assert b == [b[0]] + b[1..];
    }
  }

  /** Past the common first element, an element of one ascending list is in the other's tail. */
  lemma {:induction false} InTailOfSorted(a: seq<nat>, b: seq<nat>, x: nat)
    requires StrictlyIncreasing(a) && StrictlyIncreasing(b)
    requires |a| > 0 && |b| > 0 && a[0] == b[0]
    requires x in a[1..] && x in b
    ensures x in b[1..]
  {
  }

  /** The tagged indices of a prefix of the file are a prefix of the file's. */
  lemma {:induction false} TaggedIndicesOfPrefix(lines: seq<string>, tag: string, i: nat)
    requires i <= |lines|
    ensures |TaggedIndices(lines[..i], tag)| <= |TaggedIndices(lines, tag)|
    ensures TaggedIndices(lines[..i], tag) == TaggedIndices(lines, tag)[..|TaggedIndices(lines[..i], tag)|]
    decreases |lines| - i
  {
    if i < |lines| {
      var last := |lines| - 1;
      assert lines[..last][..i] == lines[..i];
      TaggedIndicesOfPrefix(lines[..last], tag, i);
    } else {
      assert lines[..i] == lines;
    }
  }

  /** A `msgstr` line's rank is its position in the sorted keys. */
  lemma {:induction false} RankLocates(lines: seq<string>, i: nat)
    requires i < |lines| && IsMsgstr(lines[i])
    ensures Rank(lines, i) < |MsgstrIndices(lines)|
    ensures MsgstrIndices(lines)[Rank(lines, i)] == i
  {
    var prefix := lines[..i + 1];
    assert prefix[..i] == lines[..i];
    assert MsgstrIndices(prefix) == MsgstrIndices(lines[..i]) + [i];
    TaggedIndicesOfPrefix(lines, "msgstr", i + 1);
  }

  // ---------------------------------------------------------------------------
  // Properties of translate_file

  /**
    Extraction yields one string per line beginning with `msgid` (this includes
    `msgid_plural`), in file order: the quoted body of that line.
   */
  lemma {:induction false} ExtractedIsMsgidBodies(lines: seq<string>)
    ensures Extracted(lines) == Bodies(lines, MsgidIndices(lines))
  {
    if |lines| > 0 {
      var last := |lines| - 1;
      ExtractedIsMsgidBodies(lines[..last]);
      var indices := MsgidIndices(lines[..last]);
      assert Bodies(lines[..last], indices) == Bodies(lines, indices);
    }
  }

  /** Extraction works line by line: the strings of a file are those of its parts. */
  lemma {:induction false} ExtractedConcat(a: seq<string>, b: seq<string>)
    ensures Extracted(a + b) == Extracted(a) + Extracted(b)
  {
    if |b| > 0 {
      var last := |b| - 1;
      assert (a + b)[..|a| + last] == a + b[..last];
      ExtractedConcat(a, b[..last]);
    } else {
      assert a + b == a;
    }
  }

  /** A line that does not begin with `msgid` contributes nothing, quoted or not. */
  lemma {:induction false} ExtractedIgnores(before: seq<string>, line: string, after: seq<string>)
    requires !IsMsgid(line)
    ensures Extracted(before + [line] + after) == Extracted(before + after)
  {
    ExtractedConcat(before + [line], after);
    ExtractedConcat(before, [line]);
    ExtractedConcat(before, after);
    assert [line][..0] == [];
  }

  /** Positional pairing: the k-th `msgstr` line receives the k-th translation. */
  lemma {:induction false} PositionalPairing(lines: seq<string>, translated: seq<string>, k: nat)
    requires |MsgstrIndices(lines)| <= |translated|
    requires k < |MsgstrIndices(lines)|
    ensures RewrittenFile(lines, translated)[MsgstrIndices(lines)[k]]
         == Rewrite(lines[MsgstrIndices(lines)[k]], translated[k])
  {
    var i := MsgstrIndices(lines)[k];
    MsgstrIndicesExact(lines);
    RankLocates(lines, i);
  }

  lemma {:induction false} MsgstrIsNotMsgid(line: string)
    requires IsMsgstr(line)
    ensures !IsMsgid(line)
  {
    assert line[3] == "msgstr"[3];
  }

  /** Tagged indices depend only on which lines carry the tag. */
  lemma {:induction false} TaggedIndicesAgree(a: seq<string>, b: seq<string>, tag: string)
    requires |a| == |b|
    requires forall i :: 0 <= i < |a| ==> (StartsWith(a[i], tag) <==> StartsWith(b[i], tag))
    ensures TaggedIndices(a, tag) == TaggedIndices(b, tag)
  {
    if |a| > 0 {
      var last := |a| - 1;
      TaggedIndicesAgree(a[..last], b[..last], tag);
    }
  }

  /**
    The written file keeps its structure: the same `msgid` strings, the same
    `msgstr` lines, and reading the `msgstr` lines back yields the translations
    they received, in order.
   */
  lemma {:induction false} RewrittenKeepsStructure(lines: seq<string>, translated: seq<string>)
    requires |MsgstrIndices(lines)| <= |translated|
    ensures MsgstrIndices(RewrittenFile(lines, translated)) == MsgstrIndices(lines)
    ensures Extracted(RewrittenFile(lines, translated)) == Extracted(lines)
    ensures Bodies(RewrittenFile(lines, translated), MsgstrIndices(lines))
         == translated[..|MsgstrIndices(lines)|]
  {
    var written := RewrittenFile(lines, translated);
    forall i | 0 <= i < |lines|
      ensures IsMsgstr(written[i]) <==> IsMsgstr(lines[i])
      ensures IsMsgid(written[i]) <==> IsMsgid(lines[i])
      ensures IsMsgid(lines[i]) ==> written[i] == lines[i]
    {
      if IsMsgstr(lines[i]) {
        RankLocates(lines, i);
        RewriteKeepsPrefix(lines[i], translated[Rank(lines, i)], "msgstr");
        MsgstrIsNotMsgid(lines[i]);
        MsgstrIsNotMsgid(written[i]);
      }
    }
    TaggedIndicesAgree(written, lines, "msgstr");
    TaggedIndicesAgree(written, lines, "msgid");
    ExtractedIsMsgidBodies(written);
    ExtractedIsMsgidBodies(lines);
    var indices := MsgidIndices(lines);
    assert Bodies(written, indices) == Bodies(lines, indices);
    var n := |MsgstrIndices(lines)|;
    forall k | 0 <= k < n
      ensures Bodies(written, MsgstrIndices(lines))[k] == translated[k]
    {
      PositionalPairing(lines, translated, k);
      RewriteKeepsFrame(lines[MsgstrIndices(lines)[k]], translated[k]);
    }
  }

  /**
    Extract-then-rewrite identity: giving every `msgstr` line its own quoted
    body leaves the file unchanged exactly when every `msgstr` line has at
    least two quotes.
   */
  lemma {:induction false} OwnBodiesIdentity(lines: seq<string>)
    ensures var indices := MsgstrIndices(lines);
      RewrittenFile(lines, Bodies(lines, indices)) == lines
      <==> forall k :: 0 <= k < |indices| ==> Count(lines[indices[k]]) >= 2
  {
    var indices := MsgstrIndices(lines);
    var own := Bodies(lines, indices);
    var written := RewrittenFile(lines, own);
    MsgstrIndicesExact(lines);
    if forall k :: 0 <= k < |indices| ==> Count(lines[indices[k]]) >= 2 {
      forall i | 0 <= i < |lines|
        ensures written[i] == lines[i]
      {
        if IsMsgstr(lines[i]) {
          RankLocates(lines, i);
          RoundTrip(lines[i]);
        }
      }
    }
    if written == lines {
      forall k | 0 <= k < |indices|
        ensures Count(lines[indices[k]]) >= 2
      {
        PositionalPairing(lines, own, k);
        RoundTrip(lines[indices[k]]);
      }
    }
  }

  // ---------------------------------------------------------------------------
  // The written text read back

  /**
    A well-formed line with a quote keeps its shape under the splice of a
    newline-free text: the newline stays after the last quote, so the result is
    one line again.
   */
  lemma {:induction false} RewriteKeepsLine(line: string, text: string)
    requires WellFormedLine(line) && Count(line) > 0 && NEWLINE !in text
    ensures WellFormedLine(Rewrite(line, text))
  {
    var head, tail := Head(line), Tail(line);
    Anatomy(line);
    RewriteKeepsFrame(line, text);
    var before: string := if Count(line) >= 2 then head + [QUOTE] + QuotedBody(line) + [QUOTE] else head + [QUOTE];
    assert line == before + tail;
    assert before[|before| - 1] == QUOTE;
    assert |tail| > 0;
    assert line[|line| - 1] == tail[|tail| - 1];
    assert line[..|line| - 1] == before + tail[..|tail| - 1];
    assert NEWLINE !in head by {
      assert before[..|head|] == head;
    }
    var r := Rewrite(line, text);
    assert r == head + [QUOTE] + text + [QUOTE] + tail;
    assert r[..|r| - 1] == head + [QUOTE] + text + [QUOTE] + tail[..|tail| - 1];
    assert r[|r| - 1] == tail[|tail| - 1];
  }

  /** A splice into a newline-free line, with a newline-free text, gives a newline-free last line. */
  lemma {:induction false} RewriteKeepsLastLine(line: string, text: string)
    requires NEWLINE !in line && NEWLINE !in text
    ensures FinalLine(Rewrite(line, text)) && NEWLINE !in Rewrite(line, text)
  {
    var head, tail := Head(line), Tail(line);
    Anatomy(line);
    RewriteKeepsFrame(line, text);
    assert NEWLINE !in head && NEWLINE !in tail by {
      if Count(line) >= 2 {
        assert line == head + ([QUOTE] + QuotedBody(line) + [QUOTE] + tail);
        assert line == (head + [QUOTE] + QuotedBody(line) + [QUOTE]) + tail;
      } else if Count(line) == 1 {
        assert line == head + ([QUOTE] + tail);
        assert line == (head + [QUOTE]) + tail;
      }
    }
    var r := Rewrite(line, text);
    assert r == head + [QUOTE] + text + [QUOTE] + tail;
    assert NEWLINE !in r[..|r| - 1] by {
      assert r == r[..|r| - 1] + [r[|r| - 1]];
    }
  }

  /**
    For a catalog as `readlines()` returns it, whose `msgstr` lines that end
    in a newline each carry a quote, and translations without newlines, the
    text the output loop of `translate_file` writes reads back as exactly the
    rewritten lines: as many lines as were read, in the same places.
   */
  lemma {:induction false} WrittenFileReadsBack(lines: seq<string>, translated: seq<string>)
    requires |MsgstrIndices(lines)| <= |translated|
    requires ReadableLines(lines)
    requires forall i :: 0 <= i < |lines| && IsMsgstr(lines[i]) && NEWLINE in lines[i] ==> Count(lines[i]) > 0
    requires forall k :: 0 <= k < |translated| ==> NEWLINE !in translated[k]
    ensures ReadLines(Concat(RewrittenFile(lines, translated))) == RewrittenFile(lines, translated)
    ensures |ReadLines(Concat(RewrittenFile(lines, translated)))| == |lines|
  {
    var written := RewrittenFile(lines, translated);
    forall i | 0 <= i < |written|
      ensures i < |written| - 1 ==> WellFormedLine(written[i])
      ensures i == |written| - 1 ==> FinalLine(written[i])
    {
      if IsMsgstr(lines[i]) {
        RankLocates(lines, i);
        var line, text := lines[i], translated[Rank(lines, i)];
        if NEWLINE in line {
          assert WellFormedLine(line) by {
            if i == |lines| - 1 {
              assert line == line[..|line| - 1] + [line[|line| - 1]];
            }
          }
          RewriteKeepsLine(line, text);
        } else {
          RewriteKeepsLastLine(line, text);
        }
      }
    }
    ReadConcat(written);
  }

  /**
    Without a quote the guarantee above fails: the splice puts the translation
    after the whole line, newline included, so the text read back holds the
    line and then a second line, the quoted translation followed by the line
    again.
   */
  lemma {:induction false} QuoteFreeMsgstrBreaksLine(line: string, text: string)
    requires WellFormedLine(line) && Count(line) == 0 && NEWLINE !in text
    ensures ReadLines(Rewrite(line, text)) == [line, [QUOTE] + text + [QUOTE] + line]
  {
    var second := [QUOTE] + text + [QUOTE] + line;
    assert Rewrite(line, text) == line + second by {
      Anatomy(line);
      RewriteKeepsFrame(line, text);
    }
    assert WellFormedLine(second) by {
      assert second[..|second| - 1] == [QUOTE] + text + [QUOTE] + line[..|line| - 1];
    }
    assert ReadLines(line + second) == [line, second] by {
      assert Concat([line, second]) == line + second by {
        assert Concat([second]) == second + Concat([]);
      }
      assert ReadableLines([line, second]);
      ReadConcat([line, second]);
    }
  }
}
