/**
 The response text of the `display_message` handler: the message repeated
 `repeat` times, the copies joined by a newline, i.e. `"\n".join([message] * repeat)`.
 */
module Display {
  import opened Options
  import PyStr

  /** The newline character. */
  const Newline: char := '\n'

  /** The separator put between two copies of the message: one newline. */
  const Separator: string := [Newline]

  /** `repeat` copies of the message joined by the separator, for any count: empty
      for none, the message itself for one. */
  function Render(message: string, repeat: int): (text: string)
    ensures repeat <= 0 ==> text == ""
    ensures repeat == 1 ==> text == message
  {
    PyStr.Join(Separator, PyStr.Replicate(message, repeat))
  }

  /** The body the handler computes, `"\n".join([message] * repeat)`: `None` stands
      for the `OverflowError` of a count that does not fit an index, otherwise the
      copies joined by newlines. */
  function Body(message: string, repeat: int): (r: Option<string>)
    ensures r.Some? <==> PyStr.IsIndexSized(repeat)
    ensures r.Some? ==> RenderSpec(r.value, message, repeat)
    ensures r.Some? ==> r.value == Render(message, repeat)
  {
    match PyStr.ListRepeat(message, repeat)
    case None => None
    case Some(parts) =>
      assert parts == PyStr.Replicate(message, repeat);
      RenderMeetsSpec(message, repeat);
      Some(PyStr.Join(Separator, parts))
  }

  /** Two or more copies: the first copy, one separator, then the remaining copies. */
  lemma RenderUnfold(message: string, repeat: int)
    requires repeat >= 2
    ensures Render(message, repeat) == message + Separator + Render(message, repeat - 1)
  {
    var parts := PyStr.Replicate(message, repeat);
    assert parts[1..] == PyStr.Replicate(message, repeat - 1);
  }

  /** Each copy occupies a slot of |message| characters followed (except for the
      last copy) by one separator; the i-th slot starts at i * (|message| + 1). */
  function SlotStart(message: string, i: nat): nat {
    i * (|message| + 1)
  }

  /** The i-th slot of `text` holds a copy of `message`. */
  predicate CopyAt(text: string, message: string, i: nat) {
    SlotStart(message, i) + |message| <= |text| &&
    text[SlotStart(message, i)..SlotStart(message, i) + |message|] == message
  }

  /** The i-th slot of `text` is followed by a newline. */
  predicate SeparatorAt(text: string, message: string, i: nat) {
    SlotStart(message, i) + |message| < |text| &&
    text[SlotStart(message, i) + |message|] == Newline
  }

  /** An independent description of the body: empty for no copies; otherwise exactly
      `repeat` copies, one newline between neighbours and nothing after the last. */
  predicate RenderSpec(text: string, message: string, repeat: int) {
    if repeat <= 0 then text == ""
    else
      && |text| == repeat * (|message| + 1) - 1
      && (forall i: nat :: i < repeat ==> CopyAt(text, message, i))
      && (forall i: nat :: i + 1 < repeat ==> SeparatorAt(text, message, i))
  }

  /** For n >= 1 copies the body has n * |message| + (n - 1) characters. */
  lemma {:induction false} RenderLength(message: string, repeat: int)
    requires repeat >= 1
    ensures |Render(message, repeat)| == repeat * |message| + (repeat - 1)
    decreases repeat
  {
    if repeat >= 2 {
      RenderUnfold(message, repeat);
      RenderLength(message, repeat - 1);
      assert (repeat - 1) * |message| + |message| == repeat * |message|;
    }
  }

  /** Putting one more copy and a separator in front of a text that meets the slot
      description for n copies gives a text that meets it for n + 1. */
  lemma PrependCopy(text: string, rest: string, message: string, repeat: int)
    requires repeat >= 2
    requires RenderSpec(rest, message, repeat - 1)
    requires text == message + Separator + rest
    ensures RenderSpec(text, message, repeat)
  {
    var w := |message| + 1;
    assert |message + Separator| == w;
    assert |text| == repeat * w - 1 by {
      assert |rest| == (repeat - 1) * w - 1;
      assert (repeat - 1) * w + w == repeat * w;
    }
    forall i: nat | i < repeat
      ensures CopyAt(text, message, i)
    {
      if i == 0 {
        assert SlotStart(message, 0) == 0;
        assert text[..|message|] == message;
      } else {
        assert CopyAt(rest, message, i - 1);
        var a := SlotStart(message, i - 1);
        assert SlotStart(message, i) == w + a;
        assert text[w + a..w + a + |message|] == rest[a..a + |message|];
      }
    }
    forall i: nat | i + 1 < repeat
      ensures SeparatorAt(text, message, i)
    {
      if i == 0 {
        assert SlotStart(message, 0) == 0;
        assert text[|message|] == Newline;
      } else {
        assert SeparatorAt(rest, message, i - 1);
        var a := SlotStart(message, i - 1);
        assert SlotStart(message, i) == w + a;
        assert text[w + a + |message|] == rest[a + |message|];
      }
    }
  }

  /** The rendered body meets the slot description. */
  lemma {:induction false} RenderMeetsSpec(message: string, repeat: int)
    ensures RenderSpec(Render(message, repeat), message, repeat)
    decreases if repeat <= 0 then 0 else repeat
  {
    if repeat == 1 {
      assert SlotStart(message, 0) == 0;
      assert CopyAt(Render(message, 1), message, 0);
    } else if repeat >= 2 {
      RenderUnfold(message, repeat);
      RenderMeetsSpec(message, repeat - 1);
      PrependCopy(Render(message, repeat), Render(message, repeat - 1), message, repeat);
    }
  }

  /** Whole slots do not fit past the end: k = i * w + j with j < w and k < n * w - 1 forces i < n. */
  lemma SlotBound(k: int, w: int, n: int, i: int, j: int)
    requires w >= 1 && n >= 1 && 0 <= i && 0 <= j < w
    requires k == i * w + j && k < n * w - 1
    ensures i < n
    ensures j == w - 1 ==> i + 1 < n
  {
  }

  /** Character j of slot i of a text meeting the slot description: a character of
      the message inside the slot, a newline right after it. */
  lemma SlotChar(text: string, message: string, repeat: int, i: nat, j: nat)
    requires RenderSpec(text, message, repeat)
    requires j <= |message| && SlotStart(message, i) + j < |text|
    ensures j < |message| ==> text[SlotStart(message, i) + j] == message[j]
    ensures j == |message| ==> text[SlotStart(message, i) + j] == Newline
  {
    var w := |message| + 1;
    var a := SlotStart(message, i);
    SlotBound(a + j, w, repeat, i, j);
    if j < |message| {
      assert CopyAt(text, message, i);
      assert text[a..a + |message|][j] == text[a + j];
    } else {
      assert SeparatorAt(text, message, i);
    }
  }

  /** Character k of a text meeting the slot description: a character of the message
      inside a slot, a newline between slots. */
  lemma SpecCharAt(text: string, message: string, repeat: int, k: int)
    requires RenderSpec(text, message, repeat)
    requires 0 <= k < |text|
    ensures k % (|message| + 1) < |message| ==> text[k] == message[k % (|message| + 1)]
    ensures k % (|message| + 1) == |message| ==> text[k] == Newline
  {
    var w := |message| + 1;
    var i := k / w;
    var j := k % w;
    assert SlotStart(message, i) + j == k;
    SlotChar(text, message, repeat, i, j);
  }

  /** The slot description pins the text down completely. */
  lemma SpecUnique(t1: string, t2: string, message: string, repeat: int)
    requires RenderSpec(t1, message, repeat) && RenderSpec(t2, message, repeat)
    ensures t1 == t2
  {
    forall k | 0 <= k < |t1|
      ensures t1[k] == t2[k]
    {
      SpecCharAt(t1, message, repeat, k);
      SpecCharAt(t2, message, repeat, k);
    }
  }

  /** A string is the rendered body exactly when it meets the slot description. */
  lemma RenderCharacterized(text: string, message: string, repeat: int)
    ensures text == Render(message, repeat) <==> RenderSpec(text, message, repeat)
  {
    RenderMeetsSpec(message, repeat);
    if RenderSpec(text, message, repeat) {
      SpecUnique(text, Render(message, repeat), message, repeat);
    }
  }

  /** With n >= 1 copies the body starts and ends with the message: there is no
      separator after the last copy. */
  lemma RenderNoTrailingSeparator(message: string, repeat: int)
    requires repeat >= 1
    ensures |message| <= |Render(message, repeat)|
    ensures Render(message, repeat)[..|message|] == message
    ensures Render(message, repeat)[|Render(message, repeat)| - |message|..] == message
  {
    var text := Render(message, repeat);
    RenderMeetsSpec(message, repeat);
    assert CopyAt(text, message, 0) && SlotStart(message, 0) == 0;
    assert CopyAt(text, message, repeat - 1);
    assert SlotStart(message, repeat - 1) + |message| == repeat * (|message| + 1) - 1;
  }

  /** A newline-free message gives a body with exactly n - 1 newlines (none for n <= 0). */
  lemma {:induction false} RenderNewlineCount(message: string, repeat: int)
    requires Newline !in message
    ensures multiset(Render(message, repeat))[Newline] == if repeat <= 0 then 0 else repeat - 1
    decreases if repeat <= 0 then 0 else repeat
  {
    if repeat >= 2 {
      RenderUnfold(message, repeat);
      RenderNewlineCount(message, repeat - 1);
      assert multiset(message + Separator + Render(message, repeat - 1))
        == multiset(message) + multiset(Separator) + multiset(Render(message, repeat - 1));
      assert multiset(message)[Newline] == 0;
    } else if repeat == 1 {
      assert multiset(message)[Newline] == 0;
    }
  }

  /** Splitting the body of a newline-free message at newlines gives back exactly
      `repeat` copies of the message. */
  lemma RenderSplitsIntoCopies(message: string, repeat: int)
    requires Newline !in message
    requires repeat >= 1
    ensures PyStr.Split(Render(message, repeat), Newline) == PyStr.Replicate(message, repeat)
  {
    PyStr.SplitJoin(PyStr.Replicate(message, repeat), Newline);
  }

  /** Worked cases: one, two and three copies. */
  lemma RenderScenarios()
    ensures Render("a", 1) == "a"
    ensures Render("b", 2) == "b\nb"
    ensures Render("hi", 3) == "hi\nhi\nhi"
  {
    RenderUnfold("b", 2);
    RenderUnfold("hi", 3);
    RenderUnfold("hi", 2);
  }
}
