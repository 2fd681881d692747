/** The fragment reassembly of aisdump's main loop: multi-sentence AIVDM
    payloads are collected per sequence id until the last fragment arrives. */
module Reassembly {
  import opened Wrappers
  import opened Strings

  /** The header fields of one AIVDM sentence after splitting and int():
      the fragment count, the fragment number, the sequence id (None when the
      field is empty) and the armored payload. */
  datatype Sentence = Sentence(frags: int, fragNum: int, fragSeq: Option<int>, payload: string)

  /** What one sentence yields: nothing yet, a complete payload to decode, or
      the NameError raised when a multi-fragment sentence arrives before any
      sequence id was ever set (the loop then stops). */
  datatype Outcome = Pending | Emit(payload: string) | UnboundSequence

  /** The fields main reads from one line of the capture: msg.split(","),
      int() of the fragment count and number, int() of the sequence id when
      that field is not empty, and the payload field. None when a field is
      missing (the IndexError) or is not a decimal number (the ValueError);
      main catches neither, so the loop ends at such a line. */
  function ParseSentence(line: string): (r: Option<Sentence>)
    ensures var f := Split(line, ',');
      r.Some? <==>
        |f| >= 6 && ParseDecimal(f[1]).Some? && ParseDecimal(f[2]).Some? &&
        (|f[3]| == 0 || ParseDecimal(f[3]).Some?)
    ensures r.Some? ==> var f := Split(line, ',');
      r.value.frags == ParseDecimal(f[1]).value && r.value.fragNum == ParseDecimal(f[2]).value &&
      r.value.payload == f[5] && (r.value.fragSeq.None? <==> |f[3]| == 0) &&
      (r.value.fragSeq.Some? ==> ParseDecimal(f[3]).Some? && ParseDecimal(f[3]).value == r.value.fragSeq.value)
  {
    var f := Split(line, ',');
    if |f| < 6 then None
    else
      match (ParseDecimal(f[1]), ParseDecimal(f[2]))
      case (Some(frags), Some(fragNum)) =>
        if |f[3]| == 0 then Some(Sentence(frags, fragNum, None, f[5]))
        else if ParseDecimal(f[3]).None? then None
        else Some(Sentence(frags, fragNum, Some(ParseDecimal(f[3]).value), f[5]))
      case _ => None
  }

  /** The sentences of the lines before the first line that does not parse,
      where main stops. */
  function ParsedPrefix(lines: seq<string>): (ss: seq<Sentence>)
    ensures |ss| <= |lines|
    ensures forall i :: 0 <= i < |ss| ==> ParseSentence(lines[i]) == Some(ss[i])
    ensures |ss| < |lines| ==> ParseSentence(lines[|ss|]).None?
  {
    if |lines| == 0 then []
    else
      match ParseSentence(lines[0])
      case None => []
      case Some(s) => [s] + ParsedPrefix(lines[1..])
  }

  /** The loop's state between sentences: the fragment buffer and the last
      sequence id assigned, which an empty field leaves in place. */
  datatype State = State(buffer: map<int, string>, lastSeq: Option<int>)

  /** The sequence id a sentence is filed under. */
  function SeqOf(st: State, s: Sentence): Option<int>
  {
    if s.fragSeq.Some? then s.fragSeq else st.lastSeq
  }

  /** The buffers of all keys other than key agree. */
  predicate OthersUnchanged(before: map<int, string>, after: map<int, string>, key: int)
  {
    (forall k :: k in before && k != key ==> k in after && after[k] == before[k]) &&
    (forall k :: k in after && k != key ==> k in before)
  }

  /** One iteration of the main loop on a parsed sentence. */
  function Step(st: State, s: Sentence): (r: (State, Outcome))
    ensures r.0.lastSeq == SeqOf(st, s)
    ensures s.frags <= 1 ==> r.1 == Emit(s.payload) && r.0.buffer == st.buffer
    ensures s.frags > 1 && SeqOf(st, s).None? ==> r.1 == UnboundSequence && r.0.buffer == st.buffer
    ensures s.frags > 1 && SeqOf(st, s).Some? ==>
      var key := SeqOf(st, s).value;
      OthersUnchanged(st.buffer, r.0.buffer, key) &&
      (key !in st.buffer ==> r.1 == Pending && key in r.0.buffer && r.0.buffer[key] == s.payload) &&
      (key in st.buffer && s.fragNum != s.frags ==>
        r.1 == Pending && key in r.0.buffer && r.0.buffer[key] == st.buffer[key] + s.payload) &&
      (key in st.buffer && s.fragNum == s.frags ==> r.1 == Emit(st.buffer[key] + s.payload) && key !in r.0.buffer)
  {
    var seqId := SeqOf(st, s);
    if s.frags <= 1 then (State(st.buffer, seqId), Emit(s.payload))
    else if seqId.None? then (State(st.buffer, seqId), UnboundSequence)
    else
      var key := seqId.value;
      if key in st.buffer then
        var joined := st.buffer[key] + s.payload;
        if s.frags != s.fragNum then (State(st.buffer[key := joined], seqId), Pending)
        else (State(st.buffer - {key}, seqId), Emit(joined))
      else (State(st.buffer[key := s.payload], seqId), Pending)
  }

  /** A line that parses, after lines that all did, adds its sentence. */
  lemma ParsedNext(lines: seq<string>, i: nat)
    requires i <= |ParsedPrefix(lines)| && i < |lines| && ParseSentence(lines[i]).Some?
    ensures i < |ParsedPrefix(lines)| && ParsedPrefix(lines)[i] == ParseSentence(lines[i]).value
  {
  }

  /** The main loop over a sequence of parsed sentences: the final state and
      the outcome of each sentence, in order. */
  function Run(st: State, sentences: seq<Sentence>): (r: (State, seq<Outcome>))
    ensures |r.1| == |sentences|
  {
    if |sentences| == 0 then (st, [])
    else
      var front := Run(st, sentences[..|sentences| - 1]);
      var last := Step(front.0, sentences[|sentences| - 1]);
      (last.0, front.1 + [last.1])
  }

  /** The fragments of one payload as the framer numbers them: count n,
      numbers 1..n in order, one sequence id. */
  function Train(n: int, key: int, parts: seq<string>): (ss: seq<Sentence>)
    ensures |ss| == |parts|
    ensures forall i :: 0 <= i < |parts| ==> ss[i] == Sentence(n, i + 1, Some(key), parts[i])
  {
    seq(|parts|, i requires 0 <= i < |parts| => Sentence(n, i + 1, Some(key), parts[i]))
  }

  function Pendings(n: nat): (r: seq<Outcome>)
    ensures |r| == n && forall i :: 0 <= i < n ==> r[i] == Pending
  {
    seq(n, i => Pending)
  }

  /** Before the last fragment, the first k fragments sit in the buffer under
      their sequence id and nothing has been emitted. */
  lemma {:induction false} RunTrainPrefix(st: State, key: int, parts: seq<string>, k: nat)
    requires |parts| >= 2 && key !in st.buffer && 1 <= k < |parts|
    ensures Run(st, Train(|parts|, key, parts)[..k])
      == (State(st.buffer[key := Concat(parts[..k])], Some(key)), Pendings(k))
    decreases k
  {
    if k == 1 {
      RunTrainFirst(st, key, parts);
    } else {
      RunTrainPrefix(st, key, parts, k - 1);
      RunTrainStep(st, key, parts, k);
    }
  }

  lemma RunTrainFirst(st: State, key: int, parts: seq<string>)
    requires |parts| >= 2 && key !in st.buffer
    ensures Run(st, Train(|parts|, key, parts)[..1])
      == (State(st.buffer[key := Concat(parts[..1])], Some(key)), Pendings(1))
  {
    var ss := Train(|parts|, key, parts);
    RunSnoc(st, ss, 0);
    assert ss[0] == Sentence(|parts|, 1, Some(key), parts[0]);
    assert ss[..0] == [] && parts[..1][..0] == [];
    assert Step(st, ss[0]) == (State(st.buffer[key := parts[0]], Some(key)), Pending);
    assert Concat(parts[..1]) == parts[0];
    assert [] + [Pending] == Pendings(1);
  }

  lemma RunTrainStep(st: State, key: int, parts: seq<string>, k: nat)
    requires |parts| >= 2 && key !in st.buffer && 2 <= k < |parts|
    requires Run(st, Train(|parts|, key, parts)[..k - 1])
      == (State(st.buffer[key := Concat(parts[..k - 1])], Some(key)), Pendings(k - 1))
    ensures Run(st, Train(|parts|, key, parts)[..k])
      == (State(st.buffer[key := Concat(parts[..k])], Some(key)), Pendings(k))
  {
    var ss := Train(|parts|, key, parts);
    RunSnoc(st, ss, k - 1);
    assert ss[k - 1] == Sentence(|parts|, k, Some(key), parts[k - 1]);
    ConcatSnoc(parts, k);
    var before := st.buffer[key := Concat(parts[..k - 1])];
    assert Step(State(before, Some(key)), ss[k - 1])
      == (State(before[key := Concat(parts[..k])], Some(key)), Pending);
    assert before[key := Concat(parts[..k])] == st.buffer[key := Concat(parts[..k])];
    assert Pendings(k - 1) + [Pending] == Pendings(k);
  }

  /** Running one more sentence is one more step. */
  lemma RunSnoc(st: State, ss: seq<Sentence>, i: nat)
    requires i < |ss|
    ensures var front := Run(st, ss[..i]);
      Run(st, ss[..i + 1]) == (Step(front.0, ss[i]).0, front.1 + [Step(front.0, ss[i]).1])
  {
    assert ss[..i + 1][..i] == ss[..i];
  }

  /** The fragments of one payload, fed in order under a fresh sequence id,
      emit nothing until the last one, which emits their concatenation; the
      buffer ends as it began. */
  lemma RunTrain(st: State, key: int, parts: seq<string>)
    requires |parts| >= 2 && key !in st.buffer
    ensures Run(st, Train(|parts|, key, parts))
      == (State(st.buffer, Some(key)), Pendings(|parts| - 1) + [Emit(Concat(parts))])
  {
    var ss := Train(|parts|, key, parts);
    var n := |parts|;
    RunTrainPrefix(st, key, parts, n - 1);
    assert ss[..n] == ss;
    assert parts[..n] == parts;
    ConcatSnoc(parts, n);
    assert st.buffer[key := Concat(parts[..n - 1])] - {key} == st.buffer;
  }

  /** The fragment buffer main keeps, and the sequence id variable that
      survives from one line to the next. */
  class FragmentBuffer {
    var buffer: map<int, string>
    var lastSeq: Option<int>

    /** frag_buffer = {} before the first line; no sequence id is bound. */
    constructor()
      ensures buffer == map[] && lastSeq == None
    {
      buffer := map[];
      lastSeq := None;
    }

    function Current(): State
      reads this
    {
      State(buffer, lastSeq)
    }

    /** The per-line body of the loop on a parsed sentence. */
    method Feed(s: Sentence) returns (o: Outcome)
      modifies this
      ensures (Current(), o) == Step(old(Current()), s)
    {
      if s.fragSeq.Some? {
        lastSeq := s.fragSeq;
      }
      if s.frags > 1 {
        if lastSeq.None? {
          return UnboundSequence;
        }
        var key := lastSeq.value;
        if key in buffer {
          buffer := buffer[key := buffer[key] + s.payload];
          if s.frags != s.fragNum {
            return Pending;
          }
          o := Emit(buffer[key]);
          buffer := buffer - {key};
          assert buffer == old(buffer) - {key};
          return o;
        }
        buffer := buffer[key := s.payload];
        return Pending;
      }
      return Emit(s.payload);
    }

    /** The loop of main over the lines of a capture, collecting what each
        line yields; a line that does not parse (malformed is then true) or a
        NameError ends the loop. */
    method FeedLines(lines: seq<string>) returns (outcomes: seq<Outcome>, malformed: bool)
      modifies this
      ensures |outcomes| <= |ParsedPrefix(lines)|
      ensures (Current(), outcomes) == Run(old(Current()), ParsedPrefix(lines)[..|outcomes|])
      ensures malformed ==> |outcomes| == |ParsedPrefix(lines)| < |lines|
      ensures !malformed ==>
        |outcomes| == |lines| || (|outcomes| > 0 && outcomes[|outcomes| - 1] == UnboundSequence)
      ensures forall i :: 0 <= i < |outcomes| - 1 ==> outcomes[i] != UnboundSequence
    {
      ghost var sentences := ParsedPrefix(lines);
      outcomes := [];
      malformed := false;
      var i := 0;
      while i < |lines|
        invariant 0 <= i <= |sentences| && |outcomes| == i
        invariant forall j :: 0 <= j < i ==> outcomes[j] != UnboundSequence
        invariant (Current(), outcomes) == Run(old(Current()), sentences[..i])
      {
        var parsed := ParseSentence(lines[i]);
        if parsed.None? {
          malformed := true;
          return;
        }
        ParsedNext(lines, i);
        RunSnoc(old(Current()), sentences, i);
        var o := Feed(parsed.value);
        outcomes := outcomes + [o];
        i := i + 1;
        if o == UnboundSequence {
          return;
        }
      }
    }
  }
}
