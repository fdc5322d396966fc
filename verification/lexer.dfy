/**
 * `lex`: folds the spanned stream the tokenizer produces into either every
 * token or every error. The tokenizer's own matching (longest match, rule
 * priority) is not modelled; its output is the input `stream` here.
 */
module Lexer {
  import opened Results
  import opened Tokens
  import opened SyntaxSpan

  /** One item of the tokenizer's spanned stream: a token or an error, with its byte range. */
  datatype Item = Item(result: Result<Token, LexError>, range: Range)

  /** The successful items of `s`, in order, each tagged with its span in source `src`. */
  function TokensOf(src: SourceId, s: seq<Item>): seq<Spanned<Token>>
    decreases |s|
  {
    if |s| == 0 then []
    else
      var last := s[|s| - 1];
      TokensOf(src, s[..|s| - 1]) +
        (if last.result.Ok? then [(last.result.value, New(src, last.range))] else [])
  }

  /** The failed items of `s`, in order, each tagged with its span in source `src`. */
  function ErrorsOf(src: SourceId, s: seq<Item>): seq<Spanned<LexError>>
    decreases |s|
  {
    if |s| == 0 then []
    else
      var last := s[|s| - 1];
      ErrorsOf(src, s[..|s| - 1]) +
        (if last.result.Err? then [(last.result.error, New(src, last.range))] else [])
  }

  /** The positions `i` of `s`, ascending, whose item succeeded (`ok`) or failed (`!ok`). */
  function Positions(s: seq<Item>, ok: bool): seq<nat>
    decreases |s|
  {
    if |s| == 0 then []
    else
      Positions(s[..|s| - 1], ok) + (if s[|s| - 1].result.Ok? == ok then [|s| - 1] else [])
  }

  predicate NoErrors(s: seq<Item>) {
    forall i :: 0 <= i < |s| ==> s[i].result.Ok?
  }

  /**
   * `lex`: visits every item of the stream, never stopping at an error, and
   * returns the tokens when no item failed and the errors otherwise.
   */
  method Lex(src: SourceId, stream: seq<Item>)
    returns (r: Result<seq<Spanned<Token>>, seq<Spanned<LexError>>>)
    ensures r.Ok? <==> NoErrors(stream)
    ensures r.Ok? ==> r.value == TokensOf(src, stream)
    ensures r.Err? ==> r.error == ErrorsOf(src, stream) && |r.error| > 0
  {
    var tokens: seq<Spanned<Token>> := [];
    var errors: seq<Spanned<LexError>> := [];
    for i := 0 to |stream|
      invariant tokens == TokensOf(src, stream[..i])
      invariant errors == ErrorsOf(src, stream[..i])
    {
      assert stream[..i + 1][..i] == stream[..i];
      var span := New(src, stream[i].range);
      match stream[i].result
      case Ok(token) => tokens := tokens + [(token, span)];
      case Err(err) => errors := errors + [(err, span)];
    }
    assert stream[..|stream|] == stream;
    NoErrorsIff(src, stream);
    if |errors| == 0 {
      r := Ok(tokens);
    } else {
      r := Err(errors);
    }
  }

  // ---------------------------------------------------------------------
  // Laws

  /** There are no errors exactly when every item succeeded. */
  lemma {:induction false} NoErrorsIff(src: SourceId, s: seq<Item>)
    ensures |ErrorsOf(src, s)| == 0 <==> NoErrors(s)
    decreases |s|
  {
    if |s| > 0 {
      var init := s[..|s| - 1];
      NoErrorsIff(src, init);
      if NoErrors(s) {
        assert NoErrors(init) by {
          forall i | 0 <= i < |init| ensures init[i].result.Ok? {
            assert init[i] == s[i];
          }
        }
      }
      if NoErrors(init) && s[|s| - 1].result.Ok? {
        forall i | 0 <= i < |s| ensures s[i].result.Ok? {
          if i < |init| {
            assert init[i] == s[i];
          }
        }
      }
    }
  }

  /** Every item ends up in exactly one of the two lists. */
  lemma {:induction false} PartitionSizes(src: SourceId, s: seq<Item>)
    ensures |TokensOf(src, s)| + |ErrorsOf(src, s)| == |s|
    decreases |s|
  {
    if |s| > 0 {
      PartitionSizes(src, s[..|s| - 1]);
    }
  }

  /**
   * Scanning continues past errors: the lists of a concatenated stream are
   * the concatenations of the lists of its parts.
   */
  lemma {:induction false} SplitStream(src: SourceId, a: seq<Item>, b: seq<Item>)
    ensures TokensOf(src, a + b) == TokensOf(src, a) + TokensOf(src, b)
    ensures ErrorsOf(src, a + b) == ErrorsOf(src, a) + ErrorsOf(src, b)
    decreases |b|
  {
    if |b| == 0 {
      assert a + b == a;
    } else {
      var b' := b[..|b| - 1];
      assert (a + b)[..|a + b| - 1] == a + b';
      assert (a + b)[|a + b| - 1] == b[|b| - 1];
      SplitStream(src, a, b');
    }
  }

  /** `Positions` lists only in-range positions whose item is of the chosen kind. */
  lemma {:induction false} PositionsSound(s: seq<Item>, ok: bool)
    ensures forall k :: 0 <= k < |Positions(s, ok)| ==>
      Positions(s, ok)[k] < |s| && s[Positions(s, ok)[k]].result.Ok? == ok
    decreases |s|
  {
    if |s| > 0 {
      var init := s[..|s| - 1];
      PositionsSound(init, ok);
      var p' := Positions(init, ok);
      assert forall k :: 0 <= k < |p'| ==> init[p'[k]] == s[p'[k]];
    }
  }

  /** `Positions` is strictly increasing, so it keeps stream order. */
  lemma {:induction false} PositionsIncreasing(s: seq<Item>, ok: bool)
    ensures forall k, l :: 0 <= k < l < |Positions(s, ok)| ==> Positions(s, ok)[k] < Positions(s, ok)[l]
    decreases |s|
  {
    if |s| > 0 {
      var init := s[..|s| - 1];
      PositionsIncreasing(init, ok);
      PositionsSound(init, ok);
    }
  }

  /** Every position whose item is of the chosen kind is listed. */
  lemma {:induction false} PositionsComplete(s: seq<Item>, ok: bool)
    ensures forall i :: 0 <= i < |s| && s[i].result.Ok? == ok ==> i in Positions(s, ok)
    decreases |s|
  {
    if |s| > 0 {
      var init := s[..|s| - 1];
      PositionsComplete(init, ok);
      var p := Positions(s, ok);
      forall i | 0 <= i < |s| && s[i].result.Ok? == ok
        ensures i in p
      {
        if i < |init| {
          assert init[i] == s[i];
          assert i in Positions(init, ok);
        } else {
          assert p[|p| - 1] == i;
        }
      }
    }
  }

  /**
   * The token list holds, in stream order, one entry per successful item:
   * its token, with the span `Span::new(src, range)` of that item.
   */
  lemma {:induction false} TokensOfSelectsOkItems(src: SourceId, s: seq<Item>)
    ensures |TokensOf(src, s)| == |Positions(s, true)|
    ensures forall k, l :: 0 <= k < l < |Positions(s, true)| ==> Positions(s, true)[k] < Positions(s, true)[l]
    ensures forall i :: 0 <= i < |s| && s[i].result.Ok? == true ==> i in Positions(s, true)
    ensures forall k :: 0 <= k < |TokensOf(src, s)| ==>
      Positions(s, true)[k] < |s| && s[Positions(s, true)[k]].result.Ok? &&
      TokensOf(src, s)[k] == (s[Positions(s, true)[k]].result.value, New(src, s[Positions(s, true)[k]].range))
    decreases |s|
  {
    PositionsSound(s, true);
    PositionsIncreasing(s, true);
    PositionsComplete(s, true);
    if |s| > 0 {
      var init := s[..|s| - 1];
      TokensOfSelectsOkItems(src, init);
      PositionsSound(init, true);
      var p' := Positions(init, true);
      assert forall k :: 0 <= k < |p'| ==> init[p'[k]] == s[p'[k]];
    }
  }

  /**
   * The error list holds, in stream order, one entry per failed item: its
   * error, with the span `Span::new(src, range)` of that item.
   */
  lemma {:induction false} ErrorsOfSelectsErrItems(src: SourceId, s: seq<Item>)
    ensures |ErrorsOf(src, s)| == |Positions(s, false)|
    ensures forall k, l :: 0 <= k < l < |Positions(s, false)| ==> Positions(s, false)[k] < Positions(s, false)[l]
    ensures forall i :: 0 <= i < |s| && s[i].result.Ok? == false ==> i in Positions(s, false)
    ensures forall k :: 0 <= k < |ErrorsOf(src, s)| ==>
      Positions(s, false)[k] < |s| && s[Positions(s, false)[k]].result.Err? &&
      ErrorsOf(src, s)[k] == (s[Positions(s, false)[k]].result.error, New(src, s[Positions(s, false)[k]].range))
    decreases |s|
  {
    PositionsSound(s, false);
    PositionsIncreasing(s, false);
    PositionsComplete(s, false);
    if |s| > 0 {
      var init := s[..|s| - 1];
      ErrorsOfSelectsErrItems(src, init);
      PositionsSound(init, false);
      var p' := Positions(init, false);
      assert forall k :: 0 <= k < |p'| ==> init[p'[k]] == s[p'[k]];
    }
  }

  /** With no errors, `lex` returns one token per item: no sentinel is added. */
  lemma {:induction false} NoErrorsKeepsEveryItem(src: SourceId, s: seq<Item>)
    requires NoErrors(s)
    ensures |TokensOf(src, s)| == |s|
    ensures forall i :: 0 <= i < |s| ==> TokensOf(src, s)[i] == (s[i].result.value, New(src, s[i].range))
  {
    NoErrorsIff(src, s);
    PartitionSizes(src, s);
    TokensOfSelectsOkItems(src, s);
    PositionsSound(s, true);
    PositionsIncreasing(s, true);
    PositionsAreIndices(Positions(s, true), |s|);
  }

  /** A strictly increasing list of `n` positions below `n` is `0, 1, ..., n - 1`. */
  lemma {:induction false} PositionsAreIndices(p: seq<nat>, n: nat)
    requires |p| == n
    requires forall k :: 0 <= k < |p| ==> p[k] < n
    requires forall k, l :: 0 <= k < l < |p| ==> p[k] < p[l]
    ensures forall k :: 0 <= k < |p| ==> p[k] == k
    decreases n
  {
    if n > 0 {
      assert p[n - 1] == n - 1 by {
        if p[n - 1] < n - 1 {
          StrictlyIncreasingBound(p);
        }
      }
      PositionsAreIndices(p[..n - 1], n - 1);
    }
  }

  /** In a strictly increasing list of naturals, the last entry is at least its index. */
  lemma {:induction false} StrictlyIncreasingBound(p: seq<nat>)
    requires |p| > 0
    requires forall k, l :: 0 <= k < l < |p| ==> p[k] < p[l]
    ensures p[|p| - 1] >= |p| - 1
    decreases |p|
  {
    if |p| > 1 {
      StrictlyIncreasingBound(p[..|p| - 1]);
    }
  }
}
