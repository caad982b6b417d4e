/**
 Whole runs: a decoder taken from the pool for one input after another, and values exchanged between
 a writer and a reader whose schemas differ.
 */
module Session {
  import opened Wire
  import opened Codec
  import opened Compatibility
  import opened Destination
  import opened Agreement
  import opened Arena
  import opened RoundTrip
  import D = Decoder
  import E = Encoder

  /** One call of `Unmarshal`: a schema, a destination and an input. */
  datatype Job = Job(codec: Codec, dest: Cell, input: bytes) {
    ghost predicate Valid() {
      WF(codec) && Shaped(codec, dest) && |input| <= MAX_LEN
    }

    /** What decoding this input alone gives. */
    ghost predicate Answered(stream: bool, r: D.Result)
      requires Valid()
    {
      D.Outcome(r.ok, r.val, r.rest, DecInto(stream, codec, dest, input))
    }
  }

  /**
   Any run of jobs on one decoder: each result is what decoding that input alone gives, and at the
   end every view handed out by any job is intact and no two overlap.
   */
  method Run(decoder: D.Decoder, jobs: seq<Job>) returns (results: seq<D.Result>)
    requires decoder.Valid() && forall j :: 0 <= j < |jobs| ==> jobs[j].Valid()
    modifies decoder.reader, decoder.arena, decoder.arena.mem
    ensures decoder.Valid() && old(decoder.arena.views) <= decoder.arena.views
    ensures forall v :: v in decoder.arena.views ==> v.Intact() && v.Tight()
    ensures Disjoint(decoder.arena.views)
    ensures |results| == |jobs|
    ensures forall j :: 0 <= j < |jobs| ==> jobs[j].Valid() && jobs[j].Answered(decoder.reader.stream, results[j])
  {
    hide DecInto, Shaped, WF, Disjoint;
    results := [];
    for i := 0 to |jobs|
      invariant decoder.Valid() && old(decoder.arena.views) <= decoder.arena.views && |results| == i
      invariant decoder.arena.mem == null || decoder.arena.mem == old(decoder.arena.mem) || fresh(decoder.arena.mem)
      invariant forall j :: 0 <= j < i ==> jobs[j].Answered(decoder.reader.stream, results[j])
    {
      var result := Next(decoder, jobs[i]);
      results := results + [result];
    }
  }

  method Next(decoder: D.Decoder, job: Job) returns (result: D.Result)
    requires decoder.Valid() && job.Valid()
    modifies decoder.reader, decoder.arena, decoder.arena.mem
    ensures decoder.Valid() && old(decoder.arena.views) <= decoder.arena.views
    ensures decoder.arena.mem == null || fresh(decoder.arena.mem)
    ensures job.Answered(decoder.reader.stream, result)
  {
    hide DecInto, Shaped, WF, Disjoint;
    decoder.Reset(job.input);
    var ok, val := decoder.Decode(job.codec, job.dest);
    result := D.Result(ok, val, decoder.Rem());
  }

  /** `Unmarshal` of an in-memory input. */
  method Unmarshal(c: Codec, input: bytes, x: Cell) returns (ok: bool, y: Cell)
    requires WF(c) && Shaped(c, x) && |input| <= MAX_LEN
    ensures var d := DecInto(false, c, x, input); ok == d.Ok? && (ok ==> y == d.val)
  {
    var decoder := new D.Decoder(false, input);
    assert decoder.Rem() == input;
    ok, y := decoder.Decode(c, x);
  }

  /**
   A value marshalled with schema `w` and unmarshalled with schema `r`, which may lack some of its
   union arms, into any destination: exactly the encodable values get through, and what arrives is the
   value with those arms cleared.
   */
  method Exchange(w: Codec, r: Codec, v: Value, addr: bool, x: Cell) returns (ok: bool, y: Cell)
    requires WF(w) && WF(r) && Erases(w, r) && Typed(w, v) && Shaped(r, x) && |Enc(w, v)| <= MAX_LEN
    ensures ok <==> Encodable(w, v)
    ensures ok ==> View(y) == Project(w, r, v)
  {
    hide DecInto, Enc, WF, Typed, Encodable, Shaped, View;
    var payload;
    y := x;
    ok, payload := E.Marshal(w, v, addr);
    if ok {
      ok, y := Unmarshal(r, payload, x);
      ForwardInto(false, w, r, x, v, []);
      assert Enc(w, v) + [] == Enc(w, v);
    }
  }
}
