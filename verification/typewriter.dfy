/** The typewriter headline of the home page: every 80 ms an interval callback
    types one more character of the current sentence, then deletes them one by
    one, then moves on to the next sentence, cyclically. Rendering and timers
    are not modelled; one call of `Tick` is one run of the callback. */
module TypewriterLoop {

  /** The sentences the home page cycles through. */
  const HomeSentences: seq<string> := [
    "Ready to convert your boring document into a story?",
    "Transform dull PDFs into binge-worthy learning adventures.",
    "Let your team learn, laugh, and remember \U{2014} effortlessly."
  ]

  /** The loop only behaves when there is a sentence and none of them is
      empty: with an empty sentence the cursor would run past its end forever. */
  predicate WellFormed(sentences: seq<string>) {
    |sentences| > 0 && forall k :: 0 <= k < |sentences| ==> |sentences[k]| > 0
  }

  lemma HomeSentencesWellFormed()
    ensures WellFormed(HomeSentences) && |HomeSentences| == 3
  {
  }

  /** The closure variables of the effect, and the text last published. */
  datatype Snapshot = Snapshot(i: nat, j: int, currentSentence: string, isDeleting: bool, text: string)

  /** `s.slice(0, end)`: a negative end counts from the back, and the end is
      clamped to the string. */
  function JsSlicePrefix(s: string, end: int): (r: string)
    ensures r <= s
    ensures 0 <= end <= |s| ==> r == s[..end]
  {
    var e := if end < 0 then (if |s| + end < 0 then 0 else |s| + end)
             else if end > |s| then |s| else end;
    s[..e]
  }

  /** What holds of the closure variables between two ticks: the index is in
      range, the current sentence is the indexed one, the cursor lies inside it,
      the published text is the prefix up to the cursor, and the cursor is
      strictly inside the sentence on the side the current mode moves towards. */
  predicate Inv(sentences: seq<string>, s: Snapshot) {
    && s.i < |sentences|
    && s.currentSentence == sentences[s.i]
    && 0 <= s.j <= |s.currentSentence|
    && s.text == s.currentSentence[..s.j]
    && (s.isDeleting ==> s.j >= 1)
    && (!s.isDeleting ==> s.j < |s.currentSentence|)
  }

  /** The state the effect starts from. */
  function Initial(sentences: seq<string>): (s: Snapshot)
    requires WellFormed(sentences)
    ensures Inv(sentences, s) && s.j == 0 && !s.isDeleting && s.text == []
  {
    Snapshot(0, 0, sentences[0], false, [])
  }

  /** One run of the interval callback. Typing shows one more character and
      switches to deleting exactly when the whole sentence is shown; deleting
      shows one fewer and, on reaching the empty prefix, switches back to typing
      the next sentence. `Inv` is preserved. */
  function Step(sentences: seq<string>, s: Snapshot): (t: Snapshot)
    requires |sentences| > 0
    ensures WellFormed(sentences) && Inv(sentences, s) ==> Inv(sentences, t)
    ensures !s.isDeleting ==>
      && t.j == s.j + 1 && t.i == s.i && t.currentSentence == s.currentSentence
      && t.isDeleting == (t.j == |s.currentSentence|)
    ensures s.isDeleting && s.j != 1 ==>
      t.j == s.j - 1 && t.i == s.i && t.currentSentence == s.currentSentence && t.isDeleting
    ensures s.isDeleting && s.j == 1 ==>
      && t.j == 0 && !t.isDeleting && t.text == []
      && t.i == (s.i + 1) % |sentences| && t.currentSentence == sentences[t.i]
  {
    if !s.isDeleting then
      var text := JsSlicePrefix(s.currentSentence, s.j + 1);
      var j := s.j + 1;
      Snapshot(s.i, j, s.currentSentence, j == |s.currentSentence|, text)
    else
      var text := JsSlicePrefix(s.currentSentence, s.j - 1);
      var j := s.j - 1;
      if j == 0 then
        var i := (s.i + 1) % |sentences|;
        Snapshot(i, j, sentences[i], false, text)
      else
        Snapshot(s.i, j, s.currentSentence, true, text)
  }

  /** The state after `n` ticks; every one of them keeps `Inv`. */
  function Iterate(sentences: seq<string>, s: Snapshot, n: nat): (t: Snapshot)
    requires |sentences| > 0
    ensures WellFormed(sentences) && Inv(sentences, s) ==> Inv(sentences, t)
  {
    if n == 0 then s else Step(sentences, Iterate(sentences, s, n - 1))
  }

  /** Typing a sentence from the empty prefix: after `k` ticks the first `k`
      characters are shown, and deleting starts exactly at the full sentence. */
  lemma {:induction false} TypingPhase(sentences: seq<string>, s: Snapshot, k: nat)
    requires WellFormed(sentences) && Inv(sentences, s) && !s.isDeleting && s.j == 0
    requires k <= |s.currentSentence|
    ensures Iterate(sentences, s, k)
         == Snapshot(s.i, k, s.currentSentence, k == |s.currentSentence|, s.currentSentence[..k])
  {
    if k > 0 {
      TypingPhase(sentences, s, k - 1);
    }
  }

  /** The state reached by a whole cycle: typing the next sentence from scratch. */
  function NextSentence(sentences: seq<string>, s: Snapshot): (t: Snapshot)
    requires WellFormed(sentences) && Inv(sentences, s)
    ensures Inv(sentences, t) && t.j == 0 && !t.isDeleting
  {
    var i := (s.i + 1) % |sentences|;
    Snapshot(i, 0, sentences[i], false, [])
  }

  /** Deleting after the sentence is fully typed: `k` ticks later `L - k`
      characters remain, and after `L` of them the machine types the next
      sentence from the empty prefix. */
  lemma {:induction false} DeletingPhase(sentences: seq<string>, s: Snapshot, k: nat)
    requires WellFormed(sentences) && Inv(sentences, s) && !s.isDeleting && s.j == 0
    requires k <= |s.currentSentence|
    ensures k < |s.currentSentence| ==>
      Iterate(sentences, s, |s.currentSentence| + k)
      == Snapshot(s.i, |s.currentSentence| - k, s.currentSentence, true,
                  s.currentSentence[..|s.currentSentence| - k])
    ensures k == |s.currentSentence| ==>
      Iterate(sentences, s, |s.currentSentence| + k) == NextSentence(sentences, s)
  {
    if k == 0 {
      TypingPhase(sentences, s, |s.currentSentence|);
    } else {
      DeletingPhase(sentences, s, k - 1);
    }
  }

  /** From the empty prefix in typing mode, exactly `2 * |currentSentence|`
      ticks lead back to the empty prefix in typing mode, now on the next
      sentence; no tick in between shows the empty prefix. */
  lemma {:induction false} FullCycle(sentences: seq<string>, s: Snapshot)
    requires WellFormed(sentences) && Inv(sentences, s) && !s.isDeleting && s.j == 0
    ensures Iterate(sentences, s, 2 * |s.currentSentence|) == NextSentence(sentences, s)
    ensures forall k :: 0 < k < 2 * |s.currentSentence| ==> Iterate(sentences, s, k).j > 0
  {
    var n := |s.currentSentence|;
    DeletingPhase(sentences, s, n);
    forall k | 0 < k < 2 * n
      ensures Iterate(sentences, s, k).j > 0
    {
      if k <= n {
        TypingPhase(sentences, s, k);
      } else {
        DeletingPhase(sentences, s, k - n);
      }
    }
  }

  /** The closure state of the effect as an object; `Tick` is the callback. */
  class Typewriter {
    const sentences: seq<string>
    var i: nat
    var j: int
    var currentSentence: string
    var isDeleting: bool
    var text: string

    function State(): Snapshot
      reads this
    {
      Snapshot(i, j, currentSentence, isDeleting, text)
    }

    ghost predicate Valid()
      reads this
    {
      WellFormed(sentences) && Inv(sentences, State())
    }

    constructor (sentences: seq<string>)
      requires WellFormed(sentences)
      ensures Valid() && this.sentences == sentences
      ensures State() == Initial(sentences)
    {
      this.sentences := sentences;
      i := 0;
      j := 0;
      currentSentence := sentences[0];
      isDeleting := false;
      text := [];
    }

    method Tick()
      requires Valid()
      modifies this
      ensures Valid()
      ensures State() == Step(sentences, old(State()))
    {
      if !isDeleting {
        text := JsSlicePrefix(currentSentence, j + 1);
        j := j + 1;
        if j == |currentSentence| {
          isDeleting := true;
        }
      } else {
        text := JsSlicePrefix(currentSentence, j - 1);
        j := j - 1;
        if j == 0 {
          isDeleting := false;
          i := (i + 1) % |sentences|;
          currentSentence := sentences[i];
        }
      }
    }
  }
}
