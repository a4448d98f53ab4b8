/**
 * The response extractor's text surgery: the model's reply is stripped, and
 * when it opens with a code fence ("```json" or a bare "```") only the text up
 * to the next fence is kept, stripped again. What comes out is the text handed
 * to the JSON parser.
 */
module ResponseExtractor {
  import opened Text

  /** Three backticks. */
  const Fence: string := "```"

  /** Three backticks followed by the language tag `json`. */
  const JsonFence: string := "```json"

  /**
   * The cleaned reply: the reply is stripped first, then the fences are
   * removed from the stripped text. The result never has whitespace at either
   * end, and a reply that does not open with a fence is only stripped.
   */
  function CleanResponse(response: string): (clean: string)
    ensures IsTrimmed(clean)
    ensures !StartsWith(Strip(response), Fence) ==> clean == Strip(response)
  {
    Unfence(Strip(response))
  }

  /**
   * Fence removal on the stripped reply. Taking piece 1 of the first split
   * never fails: the text starts with the separator it is split on, so the
   * split has at least two pieces (the contract of Split).
   */
  function Unfence(stripped: string): (clean: string)
    requires IsTrimmed(stripped)
    ensures IsTrimmed(clean)
    ensures !StartsWith(stripped, Fence) ==> clean == stripped
  {
    if StartsWith(stripped, JsonFence) then
      JsonFenceIsFenced(stripped);
      Strip(Split(Split(stripped, JsonFence)[1], Fence)[0])
    else if StartsWith(stripped, Fence) then
      Strip(Split(Split(stripped, Fence)[1], Fence)[0])
    else
      stripped
  }

  /** Every reply starting with "```json" also starts with "```". */
  lemma JsonFenceIsFenced(s: string)
    requires StartsWith(s, JsonFence)
    ensures StartsWith(s, Fence)
  {
    assert s[..|Fence|] == s[..|JsonFence|][..|Fence|];
  }

  /** A payload the fences can enclose: no fence inside it, and no backtick at its end. */
  predicate Enclosable(body: string) {
    !Contains(body, Fence) && (body == [] || body[|body| - 1] != '`')
  }

  /** In `body + "```" + tail`, the first fence is the one right after `body`. */
  lemma ClosingFenceFirst(body: string, tail: string)
    requires Enclosable(body)
    ensures Split(body + Fence + tail, Fence)[0] == body
  {
    var t := body + Fence + tail;
    assert t[|body|..|body| + |Fence|] == Fence;
    forall j | 0 <= j < |body| ensures !OccursAt(t, Fence, j) {
      if j + |Fence| <= |body| {
        assert !OccursAt(body, Fence, j);
        assert body[j..j + |Fence|] == t[j..j + |Fence|];
      } else {
        // the window would cover the last character of `body`, which is not a backtick
        assert t[j..j + |Fence|][|body| - 1 - j] == body[|body| - 1];
      }
    }
    SplitHead(t, Fence, |body|);
    assert t[..|body|] == body;
  }

  /** `tail` opens with the rest of a "```json" marker whose first backticks close the fence. */
  predicate CompletesJsonFence(tail: string) {
    StartsWith(tail, "`json") || StartsWith(tail, "``json")
  }

  /**
   * Where "```json" can occur in `body + "```" + tail`: never inside `body`,
   * and one or two places into the closing fence only when `tail` completes
   * the marker there.
   */
  lemma JsonFenceAfterClose(body: string, tail: string)
    requires Enclosable(body)
    ensures var t := body + Fence + tail;
      && (forall j :: 0 <= j < |body| ==> !OccursAt(t, JsonFence, j))
      && (OccursAt(t, JsonFence, |body| + 1) ==> StartsWith(tail, "`json"))
      && (OccursAt(t, JsonFence, |body| + 2) ==> StartsWith(tail, "``json"))
  {
    var t := body + Fence + tail;
    forall j | 0 <= j < |body| ensures !OccursAt(t, JsonFence, j) {
      if j + |Fence| <= |body| {
        assert !OccursAt(body, Fence, j);
        assert t[j..j + |Fence|] == body[j..j + |Fence|];
        if j + |JsonFence| <= |t| {
          assert t[j..j + |JsonFence|][..|Fence|] == t[j..j + |Fence|];
        }
      } else if j + |JsonFence| <= |t| {
        // the marker's backticks would cover the last character of `body`
        var k := |body| - 1 - j;
        assert t[|body| - 1] == body[|body| - 1];
        assert t[j..j + |JsonFence|][k] == t[|body| - 1];
        assert JsonFence[k] == '`';
      }
    }
    var i := |body| + 1;
    if OccursAt(t, JsonFence, i) {
      assert tail[..5] == t[i..i + |JsonFence|][2..];
    }
    i := |body| + 2;
    if OccursAt(t, JsonFence, i) {
      assert tail[..6] == t[i..i + |JsonFence|][1..];
    }
  }

  /**
   * The inside of a "```json" fence is everything up to the closing fence,
   * whatever text follows that fence, unless that text completes a second
   * "```json" marker overlapping the closing backticks.
   */
  lemma UnfenceJson(body: string, tail: string)
    requires Enclosable(body)
    requires !CompletesJsonFence(tail)
    requires IsTrimmed(JsonFence + body + Fence + tail)
    ensures Unfence(JsonFence + body + Fence + tail) == Strip(body)
  {
    var fenced := JsonFence + body + Fence + tail;
    assert fenced[..|JsonFence|] == JsonFence;
    assert Split(fenced, JsonFence)[1] == Split(body + Fence + tail, JsonFence)[0] by {
      assert fenced[|JsonFence|..] == body + Fence + tail;
      SplitAtPrefix(fenced, JsonFence);
    }
    PayloadBeforeMarker(body, tail);
  }

  /** After the "```json" marker, the text up to the next marker and then up to the next fence is the payload. */
  lemma PayloadBeforeMarker(body: string, tail: string)
    requires Enclosable(body)
    requires !CompletesJsonFence(tail)
    ensures Split(Split(body + Fence + tail, JsonFence)[0], Fence)[0] == body
  {
    var j := FirstMarkerPiece(body, tail);
    PieceBeforeMarker(body, tail, j);
  }

  /** Piece 0 of the split on "```json" ends at the closing fence or somewhere after it. */
  lemma FirstMarkerPiece(body: string, tail: string) returns (j: int)
    requires Enclosable(body)
    requires !CompletesJsonFence(tail)
    ensures j == |body| || |body| + |Fence| <= j <= |body| + |Fence| + |tail|
    ensures Split(body + Fence + tail, JsonFence)[0] == (body + Fence + tail)[..j]
  {
    var inner := body + Fence + tail;
    match IndexOf(inner, JsonFence)
    case None =>
      j := |inner|;
      SplitAbsent(inner, JsonFence);
      assert inner[..j] == inner;
    case Some(i) =>
      j := i;
      SplitHead(inner, JsonFence, j);
      JsonFenceAfterClose(body, tail);
  }

  /** The piece before a marker found at the closing fence or after it still ends the payload at that fence. */
  lemma PieceBeforeMarker(body: string, tail: string, j: int)
    requires Enclosable(body)
    requires j == |body| || |body| + |Fence| <= j <= |body| + |Fence| + |tail|
    ensures Split((body + Fence + tail)[..j], Fence)[0] == body
  {
    var inner := body + Fence + tail;
    if j == |body| {
      assert inner[..j] == body;
      SplitAbsent(body, Fence);
    } else {
      var rest := tail[..j - |body| - |Fence|];
      assert inner[..j] == body + Fence + rest;
      ClosingFenceFirst(body, rest);
    }
  }

  /**
   * The inside of a bare fence is everything up to the closing fence, whatever
   * follows it, when the payload does not begin with the tag `json`.
   */
  lemma UnfenceBare(body: string, tail: string)
    requires Enclosable(body)
    requires !StartsWith(body, "json")
    requires IsTrimmed(Fence + body + Fence + tail)
    ensures Unfence(Fence + body + Fence + tail) == Strip(body)
  {
    var fenced := Fence + body + Fence + tail;
    BareOpeningIsNotMarker(body, tail);
    assert fenced[..|Fence|] == Fence;
    assert Split(fenced, Fence)[1] == Split(body + Fence + tail, Fence)[0] by {
      assert fenced[|Fence|..] == body + Fence + tail;
      SplitAtPrefix(fenced, Fence);
    }
    ClosingFenceFirst(body, tail);
  }

  /** A bare fence around a payload that does not begin with `json` is not read as "```json". */
  lemma BareOpeningIsNotMarker(body: string, tail: string)
    requires !StartsWith(body, "json")
    ensures !StartsWith(Fence + body + Fence + tail, JsonFence)
  {
    var fenced := Fence + body + Fence + tail;
    if |body| >= 4 {
      assert fenced[|Fence|..|JsonFence|] == body[..4];
    } else {
      assert fenced[|Fence| + |body|] == '`';
    }
  }

  /**
   * What the reply keeps of a fenced text once stripped: the leading
   * whitespace goes, and the text after the closing fence loses only its own
   * trailing whitespace.
   */
  lemma StripFenced(lead: string, opening: string, body: string, tail: string)
    requires AllSpace(lead)
    requires StartsWith(opening, Fence)
    ensures Strip(lead + opening + body + Fence + tail) == opening + body + Fence + TrimEnd(tail)
  {
    var x := opening + body + Fence;
    assert x[0] == opening[0] == '`';
    assert x[|x| - 1] == '`';
    assert lead + opening + body + Fence + tail == lead + (x + tail);
    TrimStartOfSpaces(lead, x + tail);
    TrimEndAppend(x, tail);
  }

  /**
   * Round trip through a "```json" fence: a payload wrapped as
   * "```json" + payload + "```", with whitespace before it and any text after
   * it that does not complete a second marker, comes back stripped; an
   * already trimmed payload comes back unchanged.
   */
  lemma JsonFenceRoundTrip(lead: string, body: string, tail: string)
    requires AllSpace(lead)
    requires Enclosable(body)
    requires !CompletesJsonFence(tail)
    ensures CleanResponse(lead + JsonFence + body + Fence + tail) == Strip(body)
    ensures IsTrimmed(body) ==> CleanResponse(lead + JsonFence + body + Fence + tail) == body
  {
    var reply := lead + JsonFence + body + Fence + tail;
    var stripped := JsonFence + body + Fence + TrimEnd(tail);
    assert Strip(reply) == stripped by {
      assert JsonFence[..|Fence|] == Fence;
      StripFenced(lead, JsonFence, body, tail);
    }
    assert Unfence(stripped) == Strip(body) by {
      TrimEndPrefix(tail, "`json");
      TrimEndPrefix(tail, "``json");
      UnfenceJson(body, TrimEnd(tail));
    }
    if IsTrimmed(body) {
      StripTrimmed(body);
    }
  }

  /**
   * Round trip through a bare fence: "```" + payload + "```", with whitespace
   * before it and any text after it, gives back the stripped payload, provided
   * the payload does not itself start with `json` (then the reply would open
   * with "```json" and take the other branch).
   */
  lemma BareFenceRoundTrip(lead: string, body: string, tail: string)
    requires AllSpace(lead)
    requires Enclosable(body)
    requires !StartsWith(body, "json")
    ensures CleanResponse(lead + Fence + body + Fence + tail) == Strip(body)
    ensures IsTrimmed(body) ==> CleanResponse(lead + Fence + body + Fence + tail) == body
  {
    var reply := lead + Fence + body + Fence + tail;
    var stripped := Fence + body + Fence + TrimEnd(tail);
    assert Strip(reply) == stripped by {
      assert Fence[..|Fence|] == Fence;
      StripFenced(lead, Fence, body, tail);
    }
    assert Unfence(stripped) == Strip(body) by {
      UnfenceBare(body, TrimEnd(tail));
    }
    if IsTrimmed(body) {
      StripTrimmed(body);
    }
  }

  /**
   * Why the text after a "```json" fence must not complete a second marker:
   * with "`json" right after the closing fence, the marker found first starts
   * one backtick into the closing fence, and that backtick stays on the payload.
   */
  lemma SecondMarkerKeepsBacktick(body: string, rest: string)
    requires Enclosable(body)
    requires rest == [] || !IsSpace(rest[|rest| - 1])
    ensures CleanResponse(JsonFence + body + Fence + "`json" + rest) == Strip(body + "`")
    ensures IsTrimmed(body) ==> CleanResponse(JsonFence + body + Fence + "`json" + rest) == body + "`"
  {
    var fenced := JsonFence + body + Fence + "`json" + rest;
    assert IsTrimmed(fenced) by {
      assert fenced[0] == '`';
      if rest == [] {
        assert fenced[|fenced| - 1] == 'n';
      } else {
        assert fenced[|fenced| - 1] == rest[|rest| - 1];
      }
    }
    assert CleanResponse(fenced) == Strip(body + "`") by {
      StripTrimmed(fenced);
      UnfenceSecondMarker(body, rest);
    }
    assert IsTrimmed(body) ==> Strip(body + "`") == body + "`" by {
      if IsTrimmed(body) {
        assert IsTrimmed(body + "`");
        StripTrimmed(body + "`");
      }
    }
  }

  /** Fence removal when "`json" follows the closing fence of a "```json" fence. */
  lemma UnfenceSecondMarker(body: string, rest: string)
    requires Enclosable(body)
    requires IsTrimmed(JsonFence + body + Fence + "`json" + rest)
    ensures Unfence(JsonFence + body + Fence + "`json" + rest) == Strip(body + "`")
  {
    var fenced := JsonFence + body + Fence + "`json" + rest;
    var piece := body + "`";
    assert fenced[..|JsonFence|] == JsonFence;
    assert Split(fenced, JsonFence)[1] == piece by {
      assert fenced[|JsonFence|..] == body + Fence + "`json" + rest;
      SplitAtPrefix(fenced, JsonFence);
      MarkerOneIntoClose(body, rest);
    }
    assert Split(piece, Fence)[0] == piece by {
      BacktickAfterPayload(body);
      assert IndexOf(piece, Fence).None?;
    }
  }

  /** With "`json" right after the closing fence, the first "```json" starts one backtick into that fence. */
  lemma MarkerOneIntoClose(body: string, rest: string)
    requires Enclosable(body)
    ensures Split(body + Fence + "`json" + rest, JsonFence)[0] == body + "`"
  {
    var inner := body + Fence + "`json" + rest;
    var j := |body| + 1;
    forall i | 0 <= i < j ensures !OccursAt(inner, JsonFence, i) {
      if i == |body| {
        NoMarkerAtClose(body, rest);
      } else {
        assert inner == body + Fence + ("`json" + rest);
        JsonFenceAfterClose(body, "`json" + rest);
      }
    }
    assert OccursAt(inner, JsonFence, j) by {
      assert inner[j..j + |JsonFence|] == JsonFence;
    }
    SplitHead(inner, JsonFence, j);
    assert inner[..j] == body + "`";
  }

  /** Right at the closing fence, "```" + "`jso" is not the marker. */
  lemma NoMarkerAtClose(body: string, rest: string)
    ensures !OccursAt(body + Fence + "`json" + rest, JsonFence, |body|)
  {
    var inner := body + Fence + "`json" + rest;
    var w := inner[|body|..|body| + |JsonFence|];
    assert w[6] == inner[|body| + 6] == 'o';
    assert JsonFence[6] == 'n';
  }

  /** One backtick after an enclosable payload does not make a fence. */
  lemma BacktickAfterPayload(body: string)
    requires Enclosable(body)
    ensures !Contains(body + "`", Fence)
  {
    var piece := body + "`";
    forall i | 0 <= i <= |piece| - |Fence| ensures !OccursAt(piece, Fence, i) {
      if i + |Fence| <= |body| {
        assert !OccursAt(body, Fence, i);
        assert piece[i..i + |Fence|] == body[i..i + |Fence|];
      } else {
        // the window would cover the last character of `body`
        assert piece[i..i + |Fence|][|body| - 1 - i] == body[|body| - 1];
      }
    }
  }

  /**
   * Why an enclosable payload must not end with a backtick: when it does, its
   * trailing backticks run into the closing fence, the first fence found
   * starts inside the payload, and the payload comes back without them.
   */
  lemma TrailingBackticksAreLost(body: string, ticks: string)
    requires Enclosable(body)
    requires ticks != [] && forall k :: 0 <= k < |ticks| ==> ticks[k] == '`'
    ensures CleanResponse(JsonFence + (body + ticks) + Fence) == Strip(body)
  {
    assert ticks + Fence == Fence + ticks;
    assert JsonFence + (body + ticks) + Fence == [] + JsonFence + body + Fence + ticks;
    assert !CompletesJsonFence(ticks) by {
      assert |ticks| >= 5 ==> ticks[1] != "`json"[1];
      assert |ticks| >= 6 ==> ticks[2] != "``json"[2];
    }
    JsonFenceRoundTrip([], body, ticks);
  }

  /**
   * Why a bare-fenced payload must not start with `json`: "```" + "json" + p + "```"
   * is read as a "```json" fence around p.
   */
  lemma BarePayloadReadAsTag(body: string)
    requires Enclosable(body)
    ensures CleanResponse(Fence + ("json" + body) + Fence) == Strip(body)
  {
    assert Fence + ("json" + body) + Fence == [] + JsonFence + body + Fence + [];
    JsonFenceRoundTrip([], body, []);
  }
}
