/**
  The quote arithmetic of the `.po` rewriter: Python's `line.split('"')` and
  `'"'.join(...)`, the quoted body taken out of a `msgid` line and the splice
  that puts a translation between the first-quote prefix and the last-quote
  suffix of a `msgstr` line.
 */
module Quotes {

  const QUOTE: char := '"'

  /** `s.startswith(prefix)` */
  predicate StartsWith(s: string, prefix: string) {
    |prefix| <= |s| && s[..|prefix|] == prefix
  }

  /** The number of quote characters in `s`. */
  function Count(s: string): nat {
    if |s| == 0 then 0 else (if s[0] == QUOTE then 1 else 0) + Count(s[1..])
  }

  /** `s.split('"')`: the pieces between quotes, never fewer than one. */
  function Split(s: string): (pieces: seq<string>)
    ensures |pieces| >= 1
  {
    if |s| == 0 then [""]
    else
      var rest := Split(s[1..]);
      if s[0] == QUOTE then [""] + rest else [[s[0]] + rest[0]] + rest[1..]
  }

  /** `'"'.join(pieces)` */
  function Join(pieces: seq<string>): string {
    if |pieces| == 0 then ""
    else if |pieces| == 1 then pieces[0]
    else pieces[0] + [QUOTE] + Join(pieces[1..])
  }

  /** `line.split('"')[0]`: everything before the first quote. */
  function Head(line: string): string {
    Split(line)[0]
  }

  /** `line.split('"')[-1]`: everything after the last quote. */
  function Tail(line: string): string {
    var pieces := Split(line);
    pieces[|pieces| - 1]
  }

  /** `'"'.join(line.split('"')[1:-1])`; Python's slice `[1:-1]` of a one-piece list is empty. */
  function QuotedBody(line: string): string {
    var pieces := Split(line);
    Join(if |pieces| < 2 then [] else pieces[1..|pieces| - 1])
  }

  /** The splice of a `msgstr` line: `'"'.join([pieces[0], text, pieces[-1]])`. */
  function Rewrite(line: string, text: string): string {
    var pieces := Split(line);
    Join([pieces[0], text, pieces[|pieces| - 1]])
  }

  // ---------------------------------------------------------------------------
  // Split and Join

  lemma {:induction false} SplitOfQuoteFree(s: string)
    requires QUOTE !in s
    ensures Split(s) == [s]
  {
    if |s| > 0 {
      SplitOfQuoteFree(s[1..]);
      assert [s[0]] + s[1..] == s;
    }
  }

  /** No piece of a split contains the separator. */
  lemma {:induction false} SplitPiecesQuoteFree(s: string)
    ensures forall k :: 0 <= k < |Split(s)| ==> QUOTE !in Split(s)[k]
  {
    if |s| > 0 {
      SplitPiecesQuoteFree(s[1..]);
    }
  }

  /** A string with `n` quotes splits into `n + 1` pieces. */
  lemma {:induction false} SplitLength(s: string)
    ensures |Split(s)| == Count(s) + 1
  {
    if |s| > 0 {
      SplitLength(s[1..]);
    }
  }

  /** Joining the pieces of a split gives the string back. */
  lemma {:induction false} JoinSplit(s: string)
    ensures Join(Split(s)) == s
  {
    if |s| > 0 {
      var rest := Split(s[1..]);
      JoinSplit(s[1..]);
      if s[0] == QUOTE {
        assert Split(s)[1..] == rest;
      } else {
        var pieces := Split(s);
        assert pieces[1..] == rest[1..];
        if |rest| == 1 {
          assert Join(pieces) == [s[0]] + rest[0];
        } else {
          assert Join(rest) == rest[0] + [QUOTE] + Join(rest[1..]);
          assert Join(pieces) == [s[0]] + rest[0] + [QUOTE] + Join(rest[1..]);
        }
      }
      assert [s[0]] + s[1..] == s;
    }
  }

  /** Splitting distributes over a separator between two strings. */
  lemma {:induction false} SplitConcat(a: string, b: string)
    ensures Split(a + [QUOTE] + b) == Split(a) + Split(b)
  {
    var s := a + [QUOTE] + b;
    if |a| == 0 {
      assert s[1..] == b;
    } else {
      assert s[1..] == a[1..] + [QUOTE] + b;
      SplitConcat(a[1..], b);
      var inner := Split(a[1..]);
      if a[0] == QUOTE {
        assert Split(s) == [""] + (inner + Split(b));
      } else {
        assert (inner + Split(b))[1..] == inner[1..] + Split(b);
        assert Split(s) == [[a[0]] + inner[0]] + (inner[1..] + Split(b));
      }
    }
  }

  lemma {:induction false} JoinConcat(a: seq<string>, b: seq<string>)
    requires |a| > 0 && |b| > 0
    ensures Join(a + b) == Join(a) + [QUOTE] + Join(b)
  {
    if |a| > 1 {
      assert (a + b)[1..] == a[1..] + b;
      JoinConcat(a[1..], b);
    } else {
      assert (a + b)[1..] == b;
    }
  }

  /** Joining three or more pieces puts the first and the last around the join of the inner ones. */
  lemma {:induction false} JoinOuter(pieces: seq<string>)
    requires |pieces| >= 3
    ensures Join(pieces)
         == pieces[0] + [QUOTE] + (Join(pieces[1..|pieces| - 1]) + [QUOTE] + pieces[|pieces| - 1])
  {
    var n := |pieces|;
    var first, middle, last := pieces[0], pieces[1..n - 1], pieces[n - 1];
    var rest := pieces[1..];
    assert Join(pieces) == first + [QUOTE] + Join(rest);
    assert Join(rest) == Join(middle) + [QUOTE] + last by {
      assert rest == middle + [last];
      JoinConcat(middle, [last]);
      assert Join([last]) == last;
    }
  }

  // ---------------------------------------------------------------------------
  // Extraction and splice

  /**
    The anatomy of a line as the rewriter sees it: a quote-free prefix, and,
    when there are at least two quotes, the body between the first and the last
    quote followed by a quote-free suffix. With fewer than two quotes the
    extracted body is empty; with none, prefix and suffix are the whole line.
   */
  lemma {:induction false} Anatomy(line: string)
    ensures QUOTE !in Head(line) && QUOTE !in Tail(line)
    ensures Count(line) >= 2 ==>
      line == Head(line) + [QUOTE] + QuotedBody(line) + [QUOTE] + Tail(line)
    ensures Count(line) == 1 ==> line == Head(line) + [QUOTE] + Tail(line)
    ensures Count(line) == 0 ==> Head(line) == line && Tail(line) == line
    ensures Count(line) < 2 ==> QuotedBody(line) == ""
  {
    var pieces := Split(line);
    SplitPiecesQuoteFree(line);
    SplitLength(line);
    JoinSplit(line);
    var n := |pieces|;
    if n >= 3 {
      JoinOuter(pieces);
    } else if n == 2 {
      assert pieces[1..] == [pieces[1]];
    }
  }

  /**
    The splice changes only the quoted body: the rewritten line is the old
    prefix, a quote, the new text, a quote and the old suffix, and reading it
    back yields exactly that prefix, text and suffix.
   */
  lemma {:induction false} RewriteKeepsFrame(line: string, text: string)
    ensures Rewrite(line, text) == Head(line) + [QUOTE] + text + [QUOTE] + Tail(line)
    ensures Head(Rewrite(line, text)) == Head(line)
    ensures Tail(Rewrite(line, text)) == Tail(line)
    ensures QuotedBody(Rewrite(line, text)) == text
  {
    var head, tail := Head(line), Tail(line);
    Anatomy(line);
    var r := head + [QUOTE] + text + [QUOTE] + tail;
    assert Join([head, text, tail]) == r by {
      assert [head, text, tail][1..] == [text, tail];
      assert [text, tail][1..] == [tail];
      assert Join([tail]) == tail;
      assert Join([text, tail]) == text + [QUOTE] + tail;
      assert Join([head, text, tail]) == head + [QUOTE] + (text + [QUOTE] + tail);
    }
    SplitOfQuoteFree(head);
    SplitOfQuoteFree(tail);
    assert r == head + [QUOTE] + (text + [QUOTE] + tail);
    SplitConcat(head, text + [QUOTE] + tail);
    SplitConcat(text, tail);
    var pieces := Split(r);
    assert pieces == [head] + Split(text) + [tail];
    assert pieces[1..|pieces| - 1] == Split(text);
    JoinSplit(text);
  }

  /**
    Extract-then-splice round trip: putting a line's own quoted body back
    reproduces the line exactly when, and only when, it has at least two quotes.
   */
  lemma {:induction false} RoundTrip(line: string)
    ensures Rewrite(line, QuotedBody(line)) == line <==> Count(line) >= 2
  {
    Anatomy(line);
    RewriteKeepsFrame(line, QuotedBody(line));
    RewriteQuotes(line, QuotedBody(line));
  }

  /** A rewritten line has at least two quotes, even when the line it came from had none. */
  lemma {:induction false} RewriteQuotes(line: string, text: string)
    ensures Count(Rewrite(line, text)) >= 2
  {
    var head, tail := Head(line), Tail(line);
    RewriteKeepsFrame(line, text);
    CountConcat(head + [QUOTE] + text + [QUOTE], tail);
    CountConcat(head + [QUOTE] + text, [QUOTE]);
    CountConcat(head + [QUOTE], text);
    CountConcat(head, [QUOTE]);
    assert Count([QUOTE]) == 1 by {
      assert [QUOTE][1..] == [];
    }
  }

  /** The quotes of a concatenation are those of its parts. */
  lemma {:induction false} CountConcat(a: string, b: string)
    ensures Count(a + b) == Count(a) + Count(b)
  {
    if |a| == 0 {
      assert a + b == b;
    } else {
      assert (a + b)[1..] == a[1..] + b;
      CountConcat(a[1..], b);
    }
  }

  /** Splicing twice is splicing once with the later text. */
  lemma {:induction false} RewriteLastWins(line: string, first: string, second: string)
    ensures Rewrite(Rewrite(line, first), second) == Rewrite(line, second)
  {
    RewriteKeepsFrame(line, first);
    RewriteKeepsFrame(Rewrite(line, first), second);
    RewriteKeepsFrame(line, second);
  }

  /** A quote-free prefix of a line is a prefix of the part before its first quote. */
  lemma {:induction false} HeadKeepsPrefix(line: string, prefix: string)
    requires StartsWith(line, prefix) && QUOTE !in prefix
    ensures StartsWith(Head(line), prefix)
  {
    if |prefix| > 0 {
      assert line[0] == prefix[0];
      assert line[1..][..|prefix| - 1] == prefix[1..];
      HeadKeepsPrefix(line[1..], prefix[1..]);
      assert Head(line) == [line[0]] + Head(line[1..]);
      assert prefix == [prefix[0]] + prefix[1..];
    }
  }

  /** A quote-free prefix of the line (such as `msgstr`) survives the splice. */
  lemma {:induction false} RewriteKeepsPrefix(line: string, text: string, prefix: string)
    requires StartsWith(line, prefix) && QUOTE !in prefix
    ensures StartsWith(Rewrite(line, text), prefix)
  {
    HeadKeepsPrefix(line, prefix);
    RewriteKeepsFrame(line, text);
    assert Rewrite(line, text)[..|prefix|] == Head(line)[..|prefix|];
  }
}
