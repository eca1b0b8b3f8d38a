/**
 * The decoder object `StandardTeds` and the bit stream it reads, as
 * classes whose methods update their fields in place. Every method is
 * proved against the function of TedsSpec that describes it, so the
 * properties proved there (layout, user data, version check) carry over.
 */
module Teds {
  import opened Wrappers
  import opened Bits
  import opened TedsElement
  import opened TedsSpec

  /** The part of a `bitstring.BitStream` the decoder uses: its bits and
      the read position. */
  class BitStream {
    var bits: seq<bool>
    var pos: nat

    predicate Valid()
      reads this
    {
      pos <= |bits|
    }

    constructor (b: seq<bool>)
      ensures Valid() && bits == b && pos == 0
    {
      bits := b;
      pos := 0;
    }

    /** `read(n)`: the next n bits, moving the position past them; asking
        for more bits than are left raises a ReadError and moves nothing. */
    method Read(n: int) returns (r: Result<seq<bool>, TedsError>)
      requires Valid()
      modifies this
      ensures Valid() && bits == old(bits)
      ensures r.Success? <==> ReadBits(bits, old(pos), n).Success?
      ensures r.Success? ==> r.value == ReadBits(bits, old(pos), n).value.0 && pos == old(pos) + n
      ensures r.Failure? ==> r.error == ReadError && pos == old(pos)
    {
      if 0 <= n && pos + n <= |bits| {
        r := Success(bits[pos..pos + n]);
        pos := pos + n;
      } else {
        r := Failure(ReadError);
      }
    }
  }

  /** A method's outcome and its new state agree with a decoding function's result. */
  predicate Agrees(o: Outcome<TedsError>, r: Result<DecodeState, TedsError>, s: DecodeState)
  {
    (o.Pass? <==> r.Success?) &&
    (o.Fail? ==> o.error == r.error) &&
    (r.Success? ==> s == r.value)
  }

  /** Fields decoded so far, put in front of the fields still to decode. */
  function PrependFields(acc: Doc, r: Result<(Doc, nat), TedsError>): Result<(Doc, nat), TedsError>
  {
    if r.Failure? then r else Success((acc + r.value.0, r.value.1))
  }

  lemma PrependFieldsAssoc(a: Doc, b: Doc, r: Result<(Doc, nat), TedsError>)
    ensures PrependFields(a, PrependFields(b, r)) == PrependFields(a + b, r)
  {
    if r.Success? {
      assert a + (b + r.value.0) == (a + b) + r.value.0;
    }
  }

  lemma PrependNoFields(r: Result<(Doc, nat), TedsError>)
    ensures PrependFields([], r) == r
  {
    if r.Success? {
      assert [] + r.value.0 == r.value.0;
    }
  }

  /** Reading the fields from i on is reading field i, then the rest. */
  lemma ReadFieldsDrop(bits: seq<bool>, pos: nat, td: Doc, i: nat)
    requires pos <= |bits| && i < |td|
    ensures var f := ReadField(bits, pos, td[i].1);
      ReadFields(bits, pos, td[i..]) ==
        if f.Failure? then Failure(f.error)
        else PrependFields([(td[i].0, f.value.0)], ReadFields(bits, f.value.1, td[i + 1..]))
  {
    assert td[i..][0] == td[i];
    assert td[i..][1..] == td[i + 1..];
  }

  /** Where reading the fields from i on stops: before field i when its
      bits run past the end, after its window when they do not decode,
      otherwise where the fields after it stop. */
  lemma ReadStopDrop(bits: seq<bool>, pos: nat, td: Doc, i: nat)
    requires pos <= |bits| && i < |td|
    ensures var n := ReadWidth(td[i].1, pos, |bits|);
      var f := ReadField(bits, pos, td[i].1);
      ReadStop(bits, pos, td[i..]) ==
        if f.Success? then ReadStop(bits, f.value.1, td[i + 1..])
        else if 0 <= n && pos + n <= |bits| then pos + n
        else pos
  {
    assert td[i..][0] == td[i];
    assert td[i..][1..] == td[i + 1..];
  }

  /** A preamble that does not read or does not match ends the constructor
      with its error; a short one leaves the stream where it was, a wrong
      one after its 40 bits. */
  lemma DecodeBadPreamble(bits: seq<bool>, pos: nat, hasPreamble: bool)
    requires pos <= |bits| && PreambleSpec(bits, pos, hasPreamble).Failure?
    ensures hasPreamble
    ensures DecodeSpec(bits, pos, hasPreamble) == Failure(PreambleSpec(bits, pos, hasPreamble).error)
    ensures DecodeStop(bits, pos, hasPreamble) == if pos + 40 > |bits| then pos else pos + 40
  {
    PreambleStage(bits, pos, hasPreamble);
  }

  /** Once the preamble is read, the constructor goes on from the header. */
  lemma DecodeFromHeader(bits: seq<bool>, pos: nat, hasPreamble: bool)
    requires pos <= |bits| && PreambleSpec(bits, pos, hasPreamble).Success?
    ensures var p := HeaderStart(pos, hasPreamble);
      p <= |bits| && PreambleSpec(bits, pos, hasPreamble).value == p &&
      DecodeSpec(bits, pos, hasPreamble) == FromHeaderSpec(bits, p) &&
      DecodeStop(bits, pos, hasPreamble) == FromHeaderStop(bits, p)
  {
    PreambleStage(bits, pos, hasPreamble);
  }

  /** A field that reads and decodes passes the stop on to the fields after it. */
  lemma ReadStopStep(bits: seq<bool>, pos0: nat, td: Doc, i: nat, p: nat, q: nat, x: Element)
    requires pos0 <= |bits| && p <= |bits| && i < |td|
    requires ReadStop(bits, p, td[i..]) == ReadStop(bits, pos0, td)
    requires ReadField(bits, p, td[i].1) == Success((x, q))
    ensures ReadStop(bits, q, td[i + 1..]) == ReadStop(bits, pos0, td)
  {
    ReadStopDrop(bits, p, td, i);
  }

  /** A field whose bits run past the end ends `process` with a ReadError. */
  lemma ProcessShortRead(bits: seq<bool>, st: DecodeState, td: Doc, read: Doc, i: nat, p: nat)
    requires st.pos <= |bits| && p <= |bits| && i < |td|
    requires PrependFields(read, ReadFields(bits, p, td[i..])) == ReadFields(bits, st.pos, td)
    requires ReadStop(bits, p, td[i..]) == ReadStop(bits, st.pos, td)
    requires ReadBits(bits, p, ReadWidth(td[i].1, p, |bits|)).Failure?
    ensures ProcessSpec(bits, st, td) == Failure(ReadError)
    ensures ReadStop(bits, st.pos, td) == p
  {
    ReadFieldsDrop(bits, p, td, i);
    ReadStopDrop(bits, p, td, i);
  }

  /** A field whose bits do not decode ends `process` with the decoder's
      error. */
  lemma ProcessBadField(bits: seq<bool>, st: DecodeState, td: Doc, read: Doc, i: nat, p: nat)
    requires st.pos <= |bits| && p <= |bits| && i < |td|
    requires PrependFields(read, ReadFields(bits, p, td[i..])) == ReadFields(bits, st.pos, td)
    requires ReadStop(bits, p, td[i..]) == ReadStop(bits, st.pos, td)
    requires ReadBits(bits, p, ReadWidth(td[i].1, p, |bits|)).Success?
    requires ElementFromBits(td[i].1, ReadBits(bits, p, ReadWidth(td[i].1, p, |bits|)).value.0).Failure?
    ensures ProcessSpec(bits, st, td) ==
      Failure(ElementFromBits(td[i].1, ReadBits(bits, p, ReadWidth(td[i].1, p, |bits|)).value.0).error)
    ensures ReadStop(bits, st.pos, td) == ReadBits(bits, p, ReadWidth(td[i].1, p, |bits|)).value.1
  {
    ReadFieldsDrop(bits, p, td, i);
    ReadStopDrop(bits, p, td, i);
  }

  /** A field that reads and decodes joins the fields read so far. */
  lemma ProcessStepOk(bits: seq<bool>, pos0: nat, td: Doc, read: Doc, i: nat, p: nat, q: nat, x: Element)
    requires pos0 <= |bits| && p <= |bits| && i < |td|
    requires PrependFields(read, ReadFields(bits, p, td[i..])) == ReadFields(bits, pos0, td)
    requires ReadBits(bits, p, ReadWidth(td[i].1, p, |bits|)).Success?
    requires q == p + ReadWidth(td[i].1, p, |bits|)
    requires ElementFromBits(td[i].1, ReadBits(bits, p, ReadWidth(td[i].1, p, |bits|)).value.0) == Success(x)
    ensures q <= |bits|
    ensures ReadField(bits, p, td[i].1) == Success((x, q))
    ensures PrependFields(read + [(td[i].0, x)], ReadFields(bits, q, td[i + 1..])) == ReadFields(bits, pos0, td)
  {
    assert ReadField(bits, p, td[i].1) == Success((x, q));
    ReadFieldsDrop(bits, p, td, i);
    PrependFieldsAssoc(read, [(td[i].0, x)], ReadFields(bits, q, td[i + 1..]));
  }

  /** Once every field is read, `process` merges them into the document. */
  lemma ProcessDone(bits: seq<bool>, st: DecodeState, td: Doc, read: Doc, p: nat)
    requires st.pos <= |bits| && p <= |bits| && |read| == |td|
    requires PrependFields(read, ReadFields(bits, p, td[|td|..])) == ReadFields(bits, st.pos, td)
    requires ReadStop(bits, p, td[|td|..]) == ReadStop(bits, st.pos, td)
    ensures ProcessSpec(bits, st, td) == Success(DecodeState(Merge(st.doc, read), p))
    ensures ReadStop(bits, st.pos, td) == p
  {
    assert td[|td|..] == [];
    assert read + [] == read;
  }

  /** `StandardTeds`: the decoded document (`self.teds`, in insertion
      order) and the stream it is decoded from. */
  class StandardTeds {
    var teds: Doc
    var bitstream: BitStream

    predicate Valid()
      reads this, bitstream
    {
      bitstream.Valid()
    }

    /** The decoder's state as TedsSpec describes it. */
    function State(): DecodeState
      reads this, bitstream
      requires Valid()
    {
      DecodeState(teds, bitstream.pos)
    }

    /** The first two statements of `__init__`: an empty document over the
        given stream. The rest of `__init__` is Init. */
    constructor (bs: BitStream)
      requires bs.Valid()
      ensures Valid() && teds == [] && bitstream == bs
    {
      teds := [];
      bitstream := bs;
    }

    /** `__init__` after its first two statements: the optional preamble,
        the basic header, the version check, the template the header names
        and the common trailer. */
    method Init(hasPreamble: bool) returns (o: Outcome<TedsError>)
      requires Valid() && teds == []
      modifies this, bitstream
      ensures Valid() && bitstream == old(bitstream) && bitstream.bits == old(bitstream.bits)
      ensures Agrees(o, DecodeSpec(bitstream.bits, old(bitstream.pos), hasPreamble), State())
      ensures bitstream.pos == DecodeStop(bitstream.bits, old(bitstream.pos), hasPreamble)
    {
      ghost var p0 := bitstream.pos;
      var pre := ReadPreamble(hasPreamble);
      if pre.Failure? {
        DecodeBadPreamble(bitstream.bits, p0, hasPreamble);
        return Fail(pre.error);
      }
      DecodeFromHeader(bitstream.bits, p0, hasPreamble);
      o := FromHeader();
    }

    /** The preamble check at the start of `__init__`: with a preamble, 40 bits
        that must equal the fixed pattern; the position of the header, or the
        error. */
    method ReadPreamble(hasPreamble: bool) returns (r: Result<nat, TedsError>)
      requires Valid()
      modifies bitstream
      ensures Valid() && bitstream.bits == old(bitstream.bits)
      ensures r == PreambleSpec(bitstream.bits, old(bitstream.pos), hasPreamble)
      ensures r.Success? ==> bitstream.pos == r.value
      ensures r.Failure? ==>
        bitstream.pos == if old(bitstream.pos) + 40 > |bitstream.bits| then old(bitstream.pos) else old(bitstream.pos) + 40
    {
      if hasPreamble {
        var pre := bitstream.Read(40);
        if pre.Failure? {
          return Failure(pre.error);
        }
        if pre.value != Preamble() {
          return Failure(InvalidPreamble);
        }
      }
      r := Success(bitstream.pos);
    }

    /** `__init__` from the header on: the basic header, then the rest. */
    method FromHeader() returns (o: Outcome<TedsError>)
      requires Valid() && teds == []
      modifies this, bitstream
      ensures Valid() && bitstream == old(bitstream) && bitstream.bits == old(bitstream.bits)
      ensures Agrees(o, FromHeaderSpec(bitstream.bits, old(bitstream.pos)), State())
      ensures bitstream.pos == FromHeaderStop(bitstream.bits, old(bitstream.pos))
    {
      o := Process(HeaderFields());
      if o.Fail? {
        return;
      }
      o := AfterHeader();
    }

    /** The rest of `__init__` once the header is read: the version check,
        the template the header names and the common trailer. */
    method AfterHeader() returns (o: Outcome<TedsError>)
      requires Valid()
      modifies this, bitstream
      ensures Valid() && bitstream == old(bitstream) && bitstream.bits == old(bitstream.bits)
      ensures Agrees(o, AfterHeaderSpec(bitstream.bits, old(State())), State())
      ensures bitstream.pos == AfterHeaderStop(bitstream.bits, old(State()))
    {
      var warn := CheckBasicTeds();
      if warn.Failure? {
        return Fail(warn.error);
      }
      var tid := FieldVal(teds, TemplateId);
      if tid.Failure? {
        return Fail(tid.error);
      }
      o := LoadTemplate(tid.value);
      if o.Fail? {
        return;
      }
      o := EndTemplate();
    }

    /** `StandardTeds(bitstream, has_preamble)`: a decoder over the stream,
        or the error its constructor raises. */
    static method Decode(bs: BitStream, hasPreamble: bool) returns (r: Result<StandardTeds, TedsError>)
      requires bs.Valid()
      modifies bs
      ensures bs.Valid() && bs.bits == old(bs.bits)
      ensures r.Success? <==> DecodeSpec(bs.bits, old(bs.pos), hasPreamble).Success?
      ensures r.Failure? ==> r.error == DecodeSpec(bs.bits, old(bs.pos), hasPreamble).error
      ensures r.Success? ==>
        fresh(r.value) && r.value.bitstream == bs && r.value.Valid() &&
        r.value.State() == DecodeSpec(bs.bits, old(bs.pos), hasPreamble).value
      ensures bs.pos == DecodeStop(bs.bits, old(bs.pos), hasPreamble)
    {
      var t := new StandardTeds(bs);
      var o := t.Init(hasPreamble);
      if o.Fail? {
        return Failure(o.error);
      }
      return Success(t);
    }

    /** `process(td)`: read every field of td in order (a field of length
        -1 takes the rest of the stream), decode it, then add the decoded
        fields to the document. A failing read or decode raises and leaves
        the document as it was. */
    method Process(td: Doc) returns (o: Outcome<TedsError>)
      requires Valid()
      modifies this, bitstream
      ensures Valid() && bitstream == old(bitstream) && bitstream.bits == old(bitstream.bits)
      ensures Agrees(o, ProcessSpec(bitstream.bits, old(State()), td), State())
      ensures o.Fail? ==> teds == old(teds)
      ensures bitstream.pos == ReadStop(bitstream.bits, old(bitstream.pos), td)
    {
      ghost var st0 := State();
      ghost var pos0 := bitstream.pos;
      var read: Doc := [];
      var i := 0;
      assert td[i..] == td;
      PrependNoFields(ReadFields(bitstream.bits, pos0, td));
      while i < |td|
        invariant 0 <= i <= |td|
        invariant bitstream == old(bitstream) && bitstream.bits == old(bitstream.bits)
        invariant bitstream.Valid() && teds == old(teds)
        invariant PrependFields(read, ReadFields(bitstream.bits, bitstream.pos, td[i..]))
          == ReadFields(bitstream.bits, pos0, td)
        invariant ReadStop(bitstream.bits, bitstream.pos, td[i..]) == ReadStop(bitstream.bits, pos0, td)
      {
        var e := td[i].1;
        var n := ReadWidth(e, bitstream.pos, |bitstream.bits|);
        ghost var p := bitstream.pos;
        var w := bitstream.Read(n);
        if w.Failure? {
          ProcessShortRead(bitstream.bits, st0, td, read, i, p);
          return Fail(w.error);
        }
        var x := FromBits(e, w.value);
        if x.Failure? {
          ProcessBadField(bitstream.bits, st0, td, read, i, p);
          return Fail(x.error);
        }
        ProcessStepOk(bitstream.bits, pos0, td, read, i, p, bitstream.pos, x.value);
        ReadStopStep(bitstream.bits, pos0, td, i, p, bitstream.pos, x.value);
        read := read + [(td[i].0, x.value)];
        i := i + 1;
      }
      ProcessDone(bitstream.bits, st0, td, read, bitstream.pos);
      teds := Merge(teds, read);
      return Pass;
    }

    /** `load_template(template_id)`: 25 is the accelerometer and force
        template, 36 the thermocouple template; any other id reads nothing. */
    method LoadTemplate(templateId: Option<int>) returns (o: Outcome<TedsError>)
      requires Valid()
      modifies this, bitstream
      ensures Valid() && bitstream == old(bitstream) && bitstream.bits == old(bitstream.bits)
      ensures Agrees(o, LoadTemplateSpec(bitstream.bits, old(State()), templateId), State())
      ensures bitstream.pos == LoadTemplateStop(bitstream.bits, old(State()), templateId)
    {
      if templateId == Some(25) {
        o := AccelerometerForceTemplate();
      } else if templateId == Some(36) {
        o := ThermocoupleTemplate();
      } else {
        o := Pass;
      }
    }

    /** `end_template`: the trailer common to every template. */
    method EndTemplate() returns (o: Outcome<TedsError>)
      requires Valid()
      modifies this, bitstream
      ensures Valid() && bitstream == old(bitstream) && bitstream.bits == old(bitstream.bits)
      ensures Agrees(o, EndSpec(bitstream.bits, old(State())), State())
      ensures bitstream.pos == ReadStop(bitstream.bits, old(bitstream.pos), EndFields())
    {
      o := Process(EndFields());
    }

    /** `thermocouple_template`. */
    method ThermocoupleTemplate() returns (o: Outcome<TedsError>)
      requires Valid()
      modifies this, bitstream
      ensures Valid() && bitstream == old(bitstream) && bitstream.bits == old(bitstream.bits)
      ensures Agrees(o, ProcessSpec(bitstream.bits, old(State()), ThermocoupleFields()), State())
      ensures bitstream.pos == ReadStop(bitstream.bits, old(bitstream.pos), ThermocoupleFields())
    {
      o := Process(ThermocoupleFields());
    }

    /** `accelerometer_force_template`: the two selector bits, the branch
        they choose (a combination of values other than 0 and 1 raises), the
        common block, the transfer-function block when its flag is 1, and the
        reference block. */
    method AccelerometerForceTemplate() returns (o: Outcome<TedsError>)
      requires Valid()
      modifies this, bitstream
      ensures Valid() && bitstream == old(bitstream) && bitstream.bits == old(bitstream.bits)
      ensures Agrees(o, AccelForceSpec(bitstream.bits, old(State())), State())
      ensures bitstream.pos == AccelForceStop(bitstream.bits, old(State()))
    {
      o := Process(SelectorFields());
      if o.Fail? {
        return;
      }
      var af := FieldVal(teds, AccelerationForce);
      if af.Failure? {
        return Fail(af.error);
      }
      var ef := FieldVal(teds, ExtendedFunctionality);
      if ef.Failure? {
        return Fail(ef.error);
      }
      if af.value == Some(0) && ef.value == Some(0) {
        o := AccelerometerNoExtTemplate();
      } else if af.value == Some(1) && ef.value == Some(0) {
        o := ForceNoExtTemplate();
      } else if af.value == Some(0) && ef.value == Some(1) {
        o := AccelerometerExtTemplate();
      } else if af.value == Some(1) && ef.value == Some(1) {
        o := ForceExtTemplate();
      } else {
        return Fail(InvalidTemplate);
      }
      if o.Fail? {
        return;
      }
      o := AccelerometerTail();
    }

    /** The rest of `accelerometer_force_template` once the branch is read:
        the common block, the transfer-function block when its flag is 1,
        and the reference block. */
    method AccelerometerTail() returns (o: Outcome<TedsError>)
      requires Valid()
      modifies this, bitstream
      ensures Valid() && bitstream == old(bitstream) && bitstream.bits == old(bitstream.bits)
      ensures Agrees(o, AccelTailSpec(bitstream.bits, old(State())), State())
      ensures bitstream.pos == AccelTailStop(bitstream.bits, old(State()))
    {
      o := Process(AccelCommonFields());
      if o.Fail? {
        return;
      }
      var tf := FieldVal(teds, TransferFunction);
      if tf.Failure? {
        return Fail(tf.error);
      }
      if tf.value == Some(1) {
        o := TransferFunctionTemplate();
        if o.Fail? {
          return;
        }
      }
      o := Process(RefFields());
    }

    /** `accelerometer_no_ext_template`. */
    method AccelerometerNoExtTemplate() returns (o: Outcome<TedsError>)
      requires Valid()
      modifies this, bitstream
      ensures Valid() && bitstream == old(bitstream) && bitstream.bits == old(bitstream.bits)
      ensures Agrees(o, ProcessSpec(bitstream.bits, old(State()), AccelNoExtFields()), State())
      ensures bitstream.pos == ReadStop(bitstream.bits, old(bitstream.pos), AccelNoExtFields())
    {
      o := Process(AccelNoExtFields());
    }

    /** `force_no_ext_template`: not implemented by the source. */
    method ForceNoExtTemplate() returns (o: Outcome<TedsError>)
      ensures o == Fail(NotImplemented)
    {
      o := Fail(NotImplemented);
    }

    /** `accelerometer_ext_template`. */
    method AccelerometerExtTemplate() returns (o: Outcome<TedsError>)
      requires Valid()
      modifies this, bitstream
      ensures Valid() && bitstream == old(bitstream) && bitstream.bits == old(bitstream.bits)
      ensures Agrees(o, ProcessSpec(bitstream.bits, old(State()), AccelExtFields()), State())
      ensures bitstream.pos == ReadStop(bitstream.bits, old(bitstream.pos), AccelExtFields())
    {
      o := Process(AccelExtFields());
    }

    /** `force_ext_template`: not implemented by the source. */
    method ForceExtTemplate() returns (o: Outcome<TedsError>)
      ensures o == Fail(NotImplemented)
    {
      o := Fail(NotImplemented);
    }

    /** `transfer_function_template`. */
    method TransferFunctionTemplate() returns (o: Outcome<TedsError>)
      requires Valid()
      modifies this, bitstream
      ensures Valid() && bitstream == old(bitstream) && bitstream.bits == old(bitstream.bits)
      ensures Agrees(o, ProcessSpec(bitstream.bits, old(State()), TransferFunctionFields()), State())
      ensures bitstream.pos == ReadStop(bitstream.bits, old(bitstream.pos), TransferFunctionFields())
    {
      o := Process(TransferFunctionFields());
    }

    /** `check_basic_teds` as written: whether the legacy-format warning
        prints, or MissingKey when the document has no version number. The
        element object is compared with the int 2; neither side's equality
        knows the other, so they are never equal and the warning prints for
        every document that has the key. */
    method CheckBasicTeds() returns (r: Result<bool, TedsError>)
      requires Valid()
      ensures r == LegacyWarningAsWritten(teds)
    {
      var v := Lookup(teds, VersionNumber);
      if v.None? {
        return Failure(MissingKey);
      }
      r := Success(true);
    }

    /** `write_teds_to_file` up to the file write: the preamble, then the
        bits of every non-Constant element in document order. */
    static method WriteTedsBits(doc: Doc) returns (r: Result<seq<bool>, TedsError>)
      ensures r == WriteSpec(doc)
    {
      var bits := Preamble();
      for i := 0 to |doc|
        invariant PrependBits(bits, FieldsBits(doc[i..])) == WriteSpec(doc)
      {
        assert doc[i..][0] == doc[i] && doc[i..][1..] == doc[i + 1..];
        if !doc[i].1.Constant? {
          var b := ToBits(doc[i].1);
          if b.Failure? {
            return Failure(b.error);
          }
          var x := match b.value case Some(x) => x case None => [];
          PrependBitsAssoc(bits, x, FieldsBits(doc[i + 1..]));
          bits := bits + x;
        }
      }
      assert doc[|doc|..] == [] && bits + [] == bits;
      return Success(bits);
    }

    /** `convert_nidaqmax_list_to_bitstream`: each item's binary digits
        reversed and zero-padded to whole bytes, concatenated, read from the
        start. */
    static method NidaqmxListToBitstream(data: seq<int>) returns (r: Result<BitStream, TedsError>)
      ensures r.Success? <==> NonNegative(data)
      ensures r.Failure? ==> r.error == InvalidBinary
      ensures r.Success? ==>
        fresh(r.value) && r.value.Valid() && r.value.bits == NidaqmxBits(data) && r.value.pos == 0
    {
      var bits := [];
      for i := 0 to |data|
        invariant forall j :: 0 <= j < i ==> data[j] >= 0
        invariant NonNegative(data) ==> bits + NidaqmxBits(data[i..]) == NidaqmxBits(data)
      {
        if data[i] < 0 {
          return Failure(InvalidBinary);
        }
        if NonNegative(data) {
          NidaqmxStep(data, i);
        }
        bits := bits + ItemBits(data[i]);
      }
      assert data[|data|..] == [];
      var bs := new BitStream(bits);
      return Success(bs);
    }
  }

  /** Bits already assembled, put in front of the bits still to assemble. */
  function PrependBits(acc: seq<bool>, r: Result<seq<bool>, TedsError>): Result<seq<bool>, TedsError>
  {
    if r.Failure? then r else Success(acc + r.value)
  }

  lemma PrependBitsAssoc(a: seq<bool>, b: seq<bool>, r: Result<seq<bool>, TedsError>)
    ensures PrependBits(a, PrependBits(b, r)) == PrependBits(a + b, r)
  {
    if r.Success? {
      assert a + (b + r.value) == (a + b) + r.value;
    }
  }

  // ---------------------------------------------------------------------
  // The nidaqmx byte list

  /** One item of the list: its binary digits (most significant first)
      reversed, then padded with zeros to a whole number of bytes. */
  function ItemBits(n: nat): seq<bool>
  {
    ZeroPad(Reverse(BinDigits(n)))
  }

  /** Every item has binary digits: a negative one makes the bit-string
      constructor raise. */
  predicate NonNegative(data: seq<int>)
  {
    forall j :: 0 <= j < |data| ==> data[j] >= 0
  }

  lemma NidaqmxStep(data: seq<int>, i: nat)
    requires NonNegative(data) && i < |data|
    ensures NonNegative(data[i..]) && NonNegative(data[i + 1..])
    ensures NidaqmxBits(data[i..]) == ItemBits(data[i]) + NidaqmxBits(data[i + 1..])
  {
    assert data[i..][0] == data[i] && data[i..][1..] == data[i + 1..];
  }

  /** The stream a list of items converts to. */
  function NidaqmxBits(data: seq<int>): seq<bool>
    requires NonNegative(data)
  {
    if data == [] then [] else ItemBits(data[0]) + NidaqmxBits(data[1..])
  }

  /** Zero padding appends zeros. */
  lemma ZeroPadIsAppend(s: seq<bool>)
    ensures ZeroPad(s) == s + Zeros(|ZeroPad(s)| - |s|)
  {
    var r := ZeroPad(s);
    assert r == r[..|s|] + r[|s|..];
    assert r[|s|..] == Zeros(|r| - |s|);
  }

  /** Every item fills whole bytes and reads back, least significant bit
      first, as its own value. */
  lemma ItemBitsValue(n: nat)
    ensures |ItemBits(n)| % 8 == 0 && |ItemBits(n)| >= 8
    ensures LsbValue(ItemBits(n)) == n
  {
    ItemBitsAreLsb(n);
    var s := LsbBits(n, |BinDigits(n)|);
    LsbRoundTrip(n, |BinDigits(n)|);
    ZeroPadValue(s);
    PositiveMultipleOf8(|ZeroPad(s)|);
  }

  /** An item's bits are its low bits, as many as it has binary digits,
      padded to whole bytes. */
  lemma ItemBitsAreLsb(n: nat)
    ensures |BinDigits(n)| >= 1 && n < Pow2(|BinDigits(n)|)
    ensures ItemBits(n) == ZeroPad(LsbBits(n, |BinDigits(n)|))
  {
    BinDigitsAreUIntBits(n);
    ReverseUIntBits(n, |BinDigits(n)|);
  }

  /** Zero padding does not change the value read least significant bit first. */
  lemma ZeroPadValue(s: seq<bool>)
    ensures LsbValue(ZeroPad(s)) == LsbValue(s)
  {
    ZeroPadIsAppend(s);
    LsbValueZeros(s, |ZeroPad(s)| - |s|);
  }

  lemma PositiveMultipleOf8(m: int)
    requires m > 0 && m % 8 == 0
    ensures m >= 8
  {
  }

  /** An item below 256 converts to exactly its eight low bits. */
  lemma ItemBitsByte(n: nat)
    requires n < 256
    ensures ItemBits(n) == LsbBits(n, 8)
  {
    ItemBitsAreLsb(n);
    var m := |BinDigits(n)|;
    assert Pow2(8) == 256;
    BinDigitsLength(n, 8);
    LsbBitsLength(n, m);
    PadToByte(LsbBits(n, m));
    LsbBitsWiden(n, m, 8);
  }

  /** Padding one to eight bits fills them up to a byte with zeros. */
  lemma PadToByte(s: seq<bool>)
    requires 1 <= |s| <= 8
    ensures ZeroPad(s) == s + Zeros(8 - |s|)
  {
    ZeroPadIsAppend(s);
    assert |ZeroPad(s)| == 8;
  }

  /** Bits 8k to 8k+7 of the stream a list of bytes converts to are item
      k, least significant bit first. */
  lemma {:induction false} NidaqmxByteAt(data: seq<int>, k: nat)
    requires forall j :: 0 <= j < |data| ==> 0 <= data[j] < 256
    requires k < |data|
    ensures 8 * k + 8 <= |NidaqmxBits(data)|
    ensures NidaqmxBits(data)[8 * k..8 * k + 8] == LsbBits(data[k], 8)
    decreases k
  {
    var head := ItemBits(data[0]);
    var rest := NidaqmxBits(data[1..]);
    ItemBitsByte(data[0]);
    LsbBitsLength(data[0], 8);
    NidaqmxCons(data);
    if k > 0 {
      NidaqmxByteAt(data[1..], k - 1);
      assert data[1..][k - 1] == data[k];
      SliceAfterPrefix(head, rest, 8 * k, 8 * k + 8);
    }
  }

  lemma NidaqmxCons(data: seq<int>)
    requires data != [] && NonNegative(data)
    ensures NonNegative(data[1..])
    ensures NidaqmxBits(data) == ItemBits(data[0]) + NidaqmxBits(data[1..])
  {
  }

  /** A slice that lies past a prefix is a slice of what follows it. */
  lemma SliceAfterPrefix(head: seq<bool>, rest: seq<bool>, i: nat, j: nat)
    requires |head| <= i <= j <= |head| + |rest|
    ensures (head + rest)[i..j] == rest[i - |head|..j - |head|]
  {
  }

  /** A list of bytes converts to eight bits per item. */
  lemma {:induction false} NidaqmxLength(data: seq<int>)
    requires forall j :: 0 <= j < |data| ==> 0 <= data[j] < 256
    ensures |NidaqmxBits(data)| == 8 * |data|
    decreases |data|
  {
    if data != [] {
      ItemBitsByte(data[0]);
      LsbBitsLength(data[0], 8);
      NidaqmxLength(data[1..]);
    }
  }

  /** A list of bytes converts to eight bits per item, and each byte of the
      stream reads back, least significant bit first, as its item. */
  lemma NidaqmxBytes(data: seq<int>)
    requires forall j :: 0 <= j < |data| ==> 0 <= data[j] < 256
    ensures |NidaqmxBits(data)| == 8 * |data|
    ensures forall k :: 0 <= k < |data| ==> LsbValue(NidaqmxBits(data)[8 * k..8 * k + 8]) == data[k]
  {
    NidaqmxLength(data);
    forall k | 0 <= k < |data|
      ensures LsbValue(NidaqmxBits(data)[8 * k..8 * k + 8]) == data[k]
    {
      NidaqmxByteAt(data, k);
      LsbRoundTrip(data[k], 8);
    }
  }

  // ---------------------------------------------------------------------
  // Writing back what was read

  /** A stream written by `write_teds_to_file` opens with the preamble the
      decoder checks when told the stream has one. */
  lemma WrittenPreambleReads(doc: Doc)
    requires WriteSpec(doc).Success?
    ensures PreambleSpec(WriteSpec(doc).value, 0, true) == Success(40)
  {
    var w := WriteSpec(doc).value;
    assert w[0..40] == w[..40];
  }

  /** A field that writes back exactly the window it was read from: a
      Constant reads no bits, a numeric field has at least one bit (the
      bit packer refuses width 0), an ASCII field holds whole characters. */
  predicate Rewritable(e: Element)
  {
    FixedWidth(e) &&
    (e.Constant? ==> e.len == 0) &&
    (e.Ascii? ==> e.len % 7 == 0) &&
    ((e.UnInt? || e.Date? || e.ConRes? || e.ConRelRes?) ==> e.len >= 1)
  }

  predicate AllRewritable(td: Doc)
  {
    forall i :: 0 <= i < |td| ==> Rewritable(td[i].1)
  }

  /** Encoding a decoded field gives back its window; a Constant encodes
      to nothing. */
  lemma ElementRewrites(e: Element, w: seq<bool>)
    requires Rewritable(e) && |w| == e.len
    ensures DecodeFixed(e, w).Constant? == e.Constant?
    ensures ElementToBits(DecodeFixed(e, w)) == Success(if e.Constant? then None else Some(w))
  {
    FixedDecodes(e, w);
    match e {
      case UnInt(_, _) => LsbBitsOfValue(w);
      case Date(_, _) => LsbBitsOfValue(w);
      case ConRes(_, _, _, _) => LsbBitsOfValue(w);
      case ConRelRes(_, _, _, _) => LsbBitsOfValue(w);
      case Chr5(_, _) => Chr5EncodeDecode(w);
      case Ascii(_, _) =>
        AsciiEncodeDecode(w);
        assert w[..|w| / 7 * 7] == w;
      case Constant(_, _) =>
    }
  }

  /** Writing the fields decoded from consecutive windows gives back the
      bits of those windows. */
  lemma {:induction false} FieldsBitsFixed(bits: seq<bool>, pos: nat, td: Doc)
    requires AllFixed(td) && AllRewritable(td) && pos + Width(td) <= |bits|
    ensures Width(td) >= 0
    ensures FieldsBits(FixedFields(bits, pos, td)) == Success(bits[pos..pos + Width(td)])
    decreases |td|, 1
  {
    WidthNonNegative(td);
    if td != [] {
      FixedFieldsWrites(bits, pos, td);
    } else {
      assert Width(td) == 0 && FixedFields(bits, pos, td) == [];
      assert bits[pos..pos + Width(td)] == [];
    }
  }

  /** The width of a list of rewritable fields is the first field's width
      plus the rest's. */
  lemma WidthStep(bits: seq<bool>, pos: nat, td: Doc)
    requires td != [] && AllFixed(td) && AllRewritable(td) && pos + Width(td) <= |bits|
    ensures Splits(bits, pos, td)
    ensures Rewritable(td[0].1) && AllRewritable(td[1..])
  {
    SplitFirst(bits, pos, td);
    TailRewritable(td);
  }

  /** Writing the decoded fields is writing the first window, then what the
      remaining fields write. */
  lemma {:induction false} FixedFieldsWrites(bits: seq<bool>, pos: nat, td: Doc)
    requires td != [] && AllFixed(td) && AllRewritable(td) && pos + Width(td) <= |bits|
    ensures Width(td) >= 0
    ensures FieldsBits(FixedFields(bits, pos, td)) == Success(bits[pos..pos + Width(td)])
    decreases |td|, 0
  {
    WidthStep(bits, pos, td);
    FieldsBitsFixed(bits, pos + td[0].1.len, td[1..]);
    FieldsBitsFirst(bits, pos, td);
  }

  /** When the fields after the first write back their windows, all the
      decoded fields write back theirs. */
  lemma FieldsBitsFirst(bits: seq<bool>, pos: nat, td: Doc)
    requires Splits(bits, pos, td) && AllRewritable(td)
    requires FieldsBits(FixedFields(bits, pos + td[0].1.len, td[1..])) ==
      Success(bits[pos + td[0].1.len..pos + td[0].1.len + Width(td[1..])])
    ensures FieldsBits(FixedFields(bits, pos, td)) == Success(bits[pos..pos + Width(td)])
  {
    var w := FirstFieldWrites(bits, pos, td);
    assert FieldsBits(FixedFields(bits, pos, td)) ==
      Success(w + bits[pos + td[0].1.len..pos + td[0].1.len + Width(td[1..])]) by {
      FieldsBitsStep(FixedFields(bits, pos, td), w,
        bits[pos + td[0].1.len..pos + td[0].1.len + Width(td[1..])]);
    }
  }

  /** The first decoded field writes back its window w, and the other
      fields are those decoded after it. */
  lemma FirstFieldWrites(bits: seq<bool>, pos: nat, td: Doc) returns (w: seq<bool>)
    requires td != [] && AllFixed(td) && AllRewritable(td) && pos + Width(td) <= |bits|
    ensures Splits(bits, pos, td) && AllRewritable(td[1..])
    ensures FixedFields(bits, pos, td) != [] && HeadWrites(FixedFields(bits, pos, td)[0].1, w)
    ensures FieldsBits(FixedFields(bits, pos, td)[1..]) == FieldsBits(FixedFields(bits, pos + td[0].1.len, td[1..]))
    ensures w + bits[pos + td[0].1.len..pos + td[0].1.len + Width(td[1..])] == bits[pos..pos + Width(td)]
  {
    FixedFieldsSplit(bits, pos, td);
    w := bits[pos..pos + td[0].1.len];
    ElementRewrites(td[0].1, w);
  }

  /** The decoded fields split into the first window's field and the rest,
      and the bits split the same way. */
  lemma FixedFieldsSplit(bits: seq<bool>, pos: nat, td: Doc)
    requires td != [] && AllFixed(td) && AllRewritable(td) && pos + Width(td) <= |bits|
    ensures Splits(bits, pos, td) && Rewritable(td[0].1) && AllRewritable(td[1..])
    ensures pos + td[0].1.len + Width(td[1..]) == pos + Width(td)
    ensures FixedFields(bits, pos, td) ==
      [(td[0].0, DecodeFixed(td[0].1, bits[pos..pos + td[0].1.len]))] + FixedFields(bits, pos + td[0].1.len, td[1..])
    ensures bits[pos..pos + td[0].1.len] + bits[pos + td[0].1.len..pos + Width(td)] == bits[pos..pos + Width(td)]
  {
    WidthStep(bits, pos, td);
    FixedFieldsFirst(bits, pos, td);
    SliceConcat(bits, pos, pos + td[0].1.len, pos + Width(td));
  }

  lemma SliceConcat(bits: seq<bool>, i: nat, j: nat, k: nat)
    requires i <= j <= k <= |bits|
    ensures bits[i..j] + bits[j..k] == bits[i..k]
  {
  }

  /** An element writes the bits w; a Constant writes none. */
  predicate HeadWrites(e: Element, w: seq<bool>)
  {
    ElementToBits(e) == Success(if e.Constant? then None else Some(w)) && (e.Constant? ==> w == [])
  }

  /** Writing a document is writing its first element, then the rest. */
  lemma FieldsBitsStep(doc: Doc, w: seq<bool>, tail: seq<bool>)
    requires doc != [] && HeadWrites(doc[0].1, w)
    requires FieldsBits(doc[1..]) == Success(tail)
    ensures FieldsBits(doc) == Success(w + tail)
  {
    if doc[0].1.Constant? {
      assert w + tail == tail;
    }
  }

  lemma TailRewritable(td: Doc)
    requires td != [] && AllFixed(td) && AllRewritable(td)
    ensures AllFixed(td[1..]) && AllRewritable(td[1..])
  {
    forall i | 0 <= i < |td| - 1
      ensures FixedWidth(td[1..][i].1) && Rewritable(td[1..][i].1)
    {
      assert td[1..][i] == td[i + 1];
    }
  }

  lemma HeaderRewritable()
    ensures AllRewritable(HeaderFields())
  {
  }

  /** Writing the document the basic header decodes to gives back the
      preamble and the header's 74 bits. */
  lemma HeaderRewrites(bits: seq<bool>, p: nat)
    requires p + 74 <= |bits|
    ensures ProcessSpec(bits, DecodeState([], p), HeaderFields()).Success?
    ensures WriteSpec(ProcessSpec(bits, DecodeState([], p), HeaderFields()).value.doc)
      == Success(Preamble() + bits[p..p + 74])
  {
    HeaderFixed();
    HeaderFieldsAscending();
    HeaderRewritable();
    FixedRewrites(bits, p, HeaderFields());
  }

  /** Writing the document a list of rewritable fixed-width fields decodes
      to gives back the preamble and the bits the fields were read from. */
  lemma FixedRewrites(bits: seq<bool>, p: nat, td: Doc)
    requires AllFixed(td) && Ascending(td) && AllRewritable(td) && p + Width(td) <= |bits|
    ensures Width(td) >= 0
    ensures ProcessSpec(bits, DecodeState([], p), td).Success?
    ensures WriteSpec(ProcessSpec(bits, DecodeState([], p), td).value.doc) ==
      Success(Preamble() + bits[p..p + Width(td)])
  {
    ProcessFixed(bits, DecodeState([], p), td);
    FieldsBitsFixed(bits, p, td);
    assert [] + FixedFields(bits, p, td) == FixedFields(bits, p, td);
  }

  // ---------------------------------------------------------------------
  // Writing back a whole decoded document

  /** The document of a decoder state writes back the bits from a up to
      the state's position. */
  predicate WritesBack(bits: seq<bool>, a: nat, st: DecodeState)
  {
    a <= st.pos <= |bits| && FieldsBits(st.doc) == Success(bits[a..st.pos])
  }

  /** Writing two documents one after the other is writing each. */
  lemma {:induction false} FieldsBitsAppend(x: Doc, y: Doc, rx: seq<bool>, ry: seq<bool>)
    requires FieldsBits(x) == Success(rx) && FieldsBits(y) == Success(ry)
    ensures FieldsBits(x + y) == Success(rx + ry)
    decreases |x|, 1
  {
    if x == [] {
      assert x + y == y;
      assert rx + ry == ry;
    } else {
      FieldsBitsAppendCons(x, y, rx, ry);
    }
  }

  /** The inductive step of FieldsBitsAppend: the first element of x is
      written before the rest of x and y. */
  lemma {:induction false} FieldsBitsAppendCons(x: Doc, y: Doc, rx: seq<bool>, ry: seq<bool>)
    requires x != [] && FieldsBits(x) == Success(rx) && FieldsBits(y) == Success(ry)
    ensures FieldsBits(x + y) == Success(rx + ry)
    decreases |x|, 0
  {
    var w := FieldsBitsHead(x);
    var rest := FieldsBits(x[1..]).value;
    FieldsBitsStep(x, w, rest);
    FieldsBitsAppend(x[1..], y, rest, ry);
    FieldsBitsConsAppend(x, y, w, rest, ry);
  }

  /** Appending to a document whose first element writes w puts w in front
      of what the rest and the appended fields write. */
  lemma FieldsBitsConsAppend(x: Doc, y: Doc, w: seq<bool>, rest: seq<bool>, ry: seq<bool>)
    requires x != [] && HeadWrites(x[0].1, w) && FieldsBits(x[1..] + y) == Success(rest + ry)
    ensures FieldsBits(x + y) == Success(w + rest + ry)
  {
    var z := x + y;
    assert z[0] == x[0] && z[1..] == x[1..] + y;
    FieldsBitsStep(z, w, rest + ry);
    ConcatAssoc(w, rest, ry);
  }

  lemma ConcatAssoc(a: seq<bool>, b: seq<bool>, c: seq<bool>)
    ensures a + (b + c) == a + b + c
  {
  }

  /** A document that writes has a first element that writes, as the bits
      returned, and a rest that writes. */
  lemma FieldsBitsHead(doc: Doc) returns (w: seq<bool>)
    requires doc != [] && FieldsBits(doc).Success?
    ensures HeadWrites(doc[0].1, w) && FieldsBits(doc[1..]).Success?
  {
    if doc[0].1.Constant? {
      w := [];
    } else {
      w := ElementToBits(doc[0].1).value.value;
    }
  }

  /** A `process` call on fresh, rewritable fixed-width fields extends what
      the document writes back by the bits it read. */
  lemma ProcessWritesBack(bits: seq<bool>, a: nat, st: DecodeState, td: Doc)
    requires WritesBack(bits, a, st) && AllFixed(td) && Ascending(td) && AllRewritable(td)
    requires td != [] ==> KeysBelow(st.doc, td[0].0)
    requires ProcessSpec(bits, st, td).Success?
    ensures WritesBack(bits, a, ProcessSpec(bits, st, td).value)
  {
    var ff, n := ProcessWindow(bits, st, td);
    AppendWritesBack(bits, a, st, ff, n);
  }

  /** A `process` call on fresh, rewritable fixed-width fields appends
      fields that write back the window it read. */
  lemma ProcessWindow(bits: seq<bool>, st: DecodeState, td: Doc) returns (d: Doc, n: nat)
    requires st.pos <= |bits| && AllFixed(td) && Ascending(td) && AllRewritable(td)
    requires td != [] ==> KeysBelow(st.doc, td[0].0)
    requires ProcessSpec(bits, st, td).Success?
    ensures n == Width(td) && st.pos + n <= |bits|
    ensures ProcessSpec(bits, st, td).value == DecodeState(st.doc + d, st.pos + n)
    ensures FieldsBits(d) == Success(bits[st.pos..st.pos + n])
  {
    ProcessFixed(bits, st, td);
    FieldsBitsFixed(bits, st.pos, td);
    d := FixedFields(bits, st.pos, td);
    n := Width(td);
  }

  /** Appending fields that write back the next n bits extends what the
      document writes back by those bits. */
  lemma AppendWritesBack(bits: seq<bool>, a: nat, st: DecodeState, d: Doc, n: nat)
    requires WritesBack(bits, a, st) && st.pos + n <= |bits|
    requires FieldsBits(d) == Success(bits[st.pos..st.pos + n])
    ensures WritesBack(bits, a, DecodeState(st.doc + d, st.pos + n))
  {
    SliceConcat(bits, a, st.pos, st.pos + n);
    FieldsBitsAppend(st.doc, d, bits[a..st.pos], bits[st.pos..st.pos + n]);
    assert FieldsBits(st.doc + d) == Success(bits[a..st.pos + n]);
  }

  /** From index k on, every field is rewritable; checked index by index,
      so that it evaluates on a literal field list. */
  predicate RewritableFrom(td: Doc, k: nat)
    decreases |td| - k
  {
    k >= |td| || (Rewritable(td[k].1) && RewritableFrom(td, k + 1))
  }

  lemma {:induction false} RewritableFromAll(td: Doc, k: nat)
    requires k <= |td| && RewritableFrom(td, k)
    ensures forall i :: k <= i < |td| ==> Rewritable(td[i].1)
    decreases |td| - k
  {
    if k < |td| {
      RewritableFromAll(td, k + 1);
    }
  }

  /** Every field list of the templates and of the trailer writes back
      the bits it was read from. */
  lemma TemplatesRewritable()
    ensures AllRewritable(SelectorFields()) && AllRewritable(AccelNoExtFields())
    ensures AllRewritable(AccelExtFields()) && AllRewritable(AccelCommonFields())
    ensures AllRewritable(TransferFunctionFields()) && AllRewritable(RefFields())
    ensures AllRewritable(ThermocoupleFields()) && AllRewritable(EndFixedFields())
  {
    AccelExtRewritable();
    ThermocoupleRewritable();
    AccelCommonRewritable();
    TransferFunctionRewritable();
    EndFixedRewritable();
    SmallListsRewritable();
  }

  lemma AccelExtRewritable()
    ensures AllRewritable(AccelExtFields())
  {
    var td := AccelExtFields();
    assert RewritableFrom(td, 14);
    assert RewritableFrom(td, 11);
    assert RewritableFrom(td, 8);
    assert RewritableFrom(td, 5);
    assert RewritableFrom(td, 2);
    assert RewritableFrom(td, 0);
    RewritableFromAll(td, 0);
  }

  lemma ThermocoupleRewritable()
    ensures AllRewritable(ThermocoupleFields())
  {
    var td := ThermocoupleFields();
    assert RewritableFrom(td, 7);
    assert RewritableFrom(td, 4);
    assert RewritableFrom(td, 0);
    RewritableFromAll(td, 0);
  }

  lemma AccelCommonRewritable()
    ensures AllRewritable(AccelCommonFields())
  {
    var td := AccelCommonFields();
    assert RewritableFrom(td, 4);
    assert RewritableFrom(td, 0);
    RewritableFromAll(td, 0);
  }

  lemma TransferFunctionRewritable()
    ensures AllRewritable(TransferFunctionFields())
  {
    var td := TransferFunctionFields();
    assert RewritableFrom(td, 0);
    RewritableFromAll(td, 0);
  }

  lemma EndFixedRewritable()
    ensures AllRewritable(EndFixedFields())
  {
    var td := EndFixedFields();
    assert RewritableFrom(td, 3);
    assert RewritableFrom(td, 0);
    RewritableFromAll(td, 0);
  }

  lemma SmallListsRewritable()
    ensures AllRewritable(SelectorFields()) && AllRewritable(AccelNoExtFields()) && AllRewritable(RefFields())
  {
    assert RewritableFrom(SelectorFields(), 0);
    RewritableFromAll(SelectorFields(), 0);
    assert RewritableFrom(AccelNoExtFields(), 0);
    RewritableFromAll(AccelNoExtFields(), 0);
    assert RewritableFrom(RefFields(), 0);
    RewritableFromAll(RefFields(), 0);
  }

  /** The blocks after the accelerometer branch write back what they read. */
  lemma AccelTailWritesBack(bits: seq<bool>, a: nat, s2: DecodeState)
    requires WritesBack(bits, a, s2) && KeysBelow(s2.doc, Direction)
    requires AccelTailSpec(bits, s2).Success?
    ensures WritesBack(bits, a, AccelTailSpec(bits, s2).value)
  {
    TemplatesRewritable();
    CommonStage(bits, s2);
    AccelCommonFixed();
    AccelCommonFieldsAscending();
    var s3 := ProcessSpec(bits, s2, AccelCommonFields()).value;
    ProcessWritesBack(bits, a, s2, AccelCommonFields());
    var tf := Some(Bit(bits[s2.pos + 9]));
    TransferStage(bits, s3, tf);
    if tf == Some(1) {
      TransferFunctionFixed();
      TransferFunctionFieldsAscending();
      ProcessWritesBack(bits, a, s3, TransferFunctionFields());
    }
    var s4 := TransferFunctionSpec(bits, s3, tf).value;
    RefFixed();
    RefFieldsAscending();
    ProcessWritesBack(bits, a, s4, RefFields());
  }

  /** Template 25 writes back what it read. */
  lemma AccelWritesBack(bits: seq<bool>, a: nat, st: DecodeState)
    requires WritesBack(bits, a, st) && KeysBelow(st.doc, AccelerationForce)
    requires AccelForceSpec(bits, st).Success?
    ensures WritesBack(bits, a, AccelForceSpec(bits, st).value)
  {
    TemplatesRewritable();
    SelectorStage(bits, st);
    SelectorFixed();
    SelectorFieldsAscending();
    var s1 := ProcessSpec(bits, st, SelectorFields()).value;
    ProcessWritesBack(bits, a, st, SelectorFields());
    var af := Some(Bit(bits[st.pos]));
    var ef := Some(Bit(bits[st.pos + 1]));
    BranchStage(bits, s1, af, ef);
    if ef == Some(1) {
      AccelExtFixed();
      AccelExtFieldsAscending();
    } else {
      AccelNoExtFixed();
      AccelNoExtFieldsAscending();
    }
    ProcessWritesBack(bits, a, s1, AccelBlock(ef));
    AccelTailWritesBack(bits, a, AccelBranchSpec(bits, s1, af, ef).value);
  }

  /** The template the header names writes back what it read. */
  lemma TemplateWritesBack(bits: seq<bool>, a: nat, h: DecodeState, templateId: int)
    requires WritesBack(bits, a, h) && KeysBelow(h.doc, AccelerationForce)
    requires LoadTemplateSpec(bits, h, Some(templateId)).Success?
    ensures WritesBack(bits, a, LoadTemplateSpec(bits, h, Some(templateId)).value)
  {
    if templateId == 25 {
      AccelWritesBack(bits, a, h);
    } else if templateId == 36 {
      TemplatesRewritable();
      ThermocoupleFixed();
      ThermocoupleFieldsAscending();
      ProcessWritesBack(bits, a, h, ThermocoupleFields());
    }
  }

  /** The trailer writes back its 57 fixed bits and every whole 7-bit
      group of `user_data`; a last group of fewer than 7 bits is lost. */
  lemma EndWritesBack(bits: seq<bool>, a: nat, st: DecodeState)
    requires WritesBack(bits, a, st) && KeysBelow(st.doc, CalibrationDate)
    requires EndSpec(bits, st).Success?
    ensures st.pos + 57 <= |bits|
    ensures FieldsBits(EndSpec(bits, st).value.doc) ==
      Success(bits[a..UserDataEnd(bits, st.pos)])
  {
    var d := EndWindow(bits, st);
    FieldsBitsAppend(st.doc, d, bits[a..st.pos], bits[st.pos..UserDataEnd(bits, st.pos)]);
    SliceConcat(bits, a, st.pos, UserDataEnd(bits, st.pos));
  }

  /** `end_template` appends the trailer's fields, which write back its 57
      fixed bits and the whole 7-bit groups after them. */
  lemma EndWindow(bits: seq<bool>, st: DecodeState) returns (d: Doc)
    requires st.pos <= |bits| && KeysBelow(st.doc, CalibrationDate)
    requires EndSpec(bits, st).Success?
    ensures st.pos + 57 <= |bits|
    ensures EndSpec(bits, st).value.doc == st.doc + d
    ensures FieldsBits(d) == Success(bits[st.pos..UserDataEnd(bits, st.pos)])
  {
    var q := st.pos;
    EndStage(bits, st);
    EndRead(bits, q);
    d := EndDecoded(bits, q);
    EndDecodedAscending(bits, q);
    MergeFresh(st.doc, d);
    EndDecodedWrites(bits, q);
  }

  /** The trailer's decoded fields write back its 57 fixed bits and the
      whole 7-bit groups of `user_data`. */
  lemma EndDecodedWrites(bits: seq<bool>, q: nat)
    requires q + 57 <= |bits|
    ensures FieldsBits(EndDecoded(bits, q)) == Success(bits[q..UserDataEnd(bits, q)])
  {
    var e := TailGroups(bits, q);
    assert FieldsBits(EndDecoded(bits, q)) == Success(bits[q..e]) by {
      EndFixed();
      TemplatesRewritable();
      var fixed := FixedFields(bits, q, EndFixedFields());
      FieldsBitsFixed(bits, q, EndFixedFields());
      var user := UserDataField(bits[q + 57..]);
      assert EndDecoded(bits, q) == fixed + user;
      FieldsBitsAppend(fixed, user, bits[q..q + 57], bits[q + 57..e]);
      SliceConcat(bits, q, q + 57, e);
    }
  }

  /** Where the last whole 7-bit character of `user_data` ends, for a
      trailer at q: a last group of fewer than 7 bits is not written back. */
  function UserDataEnd(bits: seq<bool>, q: nat): (e: int)
    requires q + 57 <= |bits|
    ensures q + 57 <= e <= |bits| && |bits| - e < 7
    ensures (e - q - 57) % 7 == 0
    ensures e == |bits| <==> (|bits| - q - 57) % 7 == 0
  {
    |bits| - (|bits| - q - 57) % 7
  }

  /** The bits after the trailer's 57 fixed bits at q, up to the last
      whole 7-bit group, end at UserDataEnd. */
  lemma TailGroups(bits: seq<bool>, q: nat) returns (e: nat)
    requires q + 57 <= |bits|
    ensures e == UserDataEnd(bits, q) && q + 57 <= e <= |bits|
    ensures bits[q + 57..][..|bits[q + 57..]| / 7 * 7] == bits[q + 57..e]
  {
    var m := |bits| - q - 57;
    var k := m / 7 * 7;
    assert k == m - m % 7;
    e := q + 57 + k;
  }

  /** The `user_data` field decoded from w writes back the whole 7-bit
      groups of w. */
  lemma UserDataField(w: seq<bool>) returns (user: Doc)
    ensures user == [(UserData, Ascii(-1, Some(AsciiDecode(w))))]
    ensures FieldsBits(user) == Success(w[..|w| / 7 * 7])
  {
    user := [(UserData, Ascii(-1, Some(AsciiDecode(w))))];
    AsciiEncodeDecode(w);
    assert user[1..] == [];
    assert AsciiEncode(AsciiDecode(w)) + [] == w[..|w| / 7 * 7];
  }

  /** Writing the document the decoder builds gives back the preamble and
      every bit from the header on, up to the last whole 7-bit group of
      `user_data`; the trailer starts where DecodeLayout says. */
  lemma DecodeWritesBack(bits: seq<bool>, pos: nat, hasPreamble: bool)
    requires pos <= |bits| && DecodeSpec(bits, pos, hasPreamble).Success?
    ensures DecodeLayout(bits, pos, hasPreamble).Success?
    ensures var t := DecodeLayout(bits, pos, hasPreamble).value;
      HeaderStart(pos, hasPreamble) <= t && t + 57 <= |bits| &&
      WriteSpec(DecodeSpec(bits, pos, hasPreamble).value.doc) ==
        Success(Preamble() + bits[HeaderStart(pos, hasPreamble)..UserDataEnd(bits, t)])
  {
    var p := HeaderStart(pos, hasPreamble);
    DecodeAgreesWithLayout(bits, pos, hasPreamble);
    PreambleStage(bits, pos, hasPreamble);
    assert p + 74 <= |bits|;
    var h := HeaderWritesBack(bits, p);
    DecodeAfterHeader(bits, pos, hasPreamble);
    AfterHeaderWritesBack(bits, p, h);
  }

  /** The basic header writes back its 74 bits. */
  lemma HeaderWritesBack(bits: seq<bool>, p: nat) returns (h: DecodeState)
    requires p + 74 <= |bits|
    ensures ProcessSpec(bits, DecodeState([], p), HeaderFields()) == Success(h)
    ensures h.pos == p + 74 && KeysBelow(h.doc, AccelerationForce) && WritesBack(bits, p, h)
    ensures LegacyWarningAsWritten(h.doc) == Success(true)
    ensures FieldVal(h.doc, TemplateId) == Success(Some(LsbValue(bits[p + 66..p + 74])))
  {
    HeaderStage(bits, p);
    h := ProcessSpec(bits, DecodeState([], p), HeaderFields()).value;
    HeaderFixed();
    HeaderFieldsAscending();
    HeaderRewritable();
    EmptyWritesBack(bits, p);
    ProcessWritesBack(bits, p, DecodeState([], p), HeaderFields());
  }

  /** An empty document writes back the empty window. */
  lemma EmptyWritesBack(bits: seq<bool>, p: nat)
    requires p <= |bits|
    ensures WritesBack(bits, p, DecodeState([], p))
  {
    assert bits[p..p] == [];
  }

  /** `write_teds_to_file` puts the preamble before the fields' bits. */
  lemma WriteOfFields(doc: Doc, w: seq<bool>)
    requires FieldsBits(doc) == Success(w)
    ensures WriteSpec(doc) == Success(Preamble() + w)
  {
  }

  /** After a header at p, the template and the trailer write back every
      bit up to the last whole 7-bit group of `user_data`. */
  lemma AfterHeaderWritesBack(bits: seq<bool>, p: nat, h: DecodeState)
    requires h.pos == p + 74 <= |bits| && KeysBelow(h.doc, AccelerationForce) && WritesBack(bits, p, h)
    requires FieldVal(h.doc, TemplateId) == Success(Some(LsbValue(bits[p + 66..p + 74])))
    requires AfterHeaderSpec(bits, h).Success?
    ensures TrailerStart(bits, p).Success? && TrailerStart(bits, p).value + 57 <= |bits|
    ensures WriteSpec(AfterHeaderSpec(bits, h).value.doc) ==
      Success(Preamble() + bits[p..UserDataEnd(bits, TrailerStart(bits, p).value)])
  {
    var tid := LsbValue(bits[p + 66..p + 74]);
    LoadTemplateLayout(bits, h, tid);
    var b := LoadTemplateSpec(bits, h, Some(tid)).value;
    var n := BodyLayout(bits, h.pos, tid).value;
    assert b.pos == p + 74 + n;
    TemplateWritesBack(bits, p, h, tid);
    EndWritesBack(bits, p, b);
    assert AfterHeaderSpec(bits, h) == EndSpec(bits, b);
    TrailerAt(bits, p, n);
    assert TrailerStart(bits, p).value == b.pos;
    WriteOfFields(EndSpec(bits, b).value.doc, bits[p..UserDataEnd(bits, b.pos)]);
  }

  /** The trailer starts where the body of the template the header names
      ends. */
  lemma TrailerAt(bits: seq<bool>, p: nat, n: nat)
    requires p + 74 + n + 57 <= |bits|
    requires BodyLayout(bits, p + 74, LsbValue(bits[p + 66..p + 74])) == Success(n)
    ensures TrailerStart(bits, p) == Success(p + 74 + n)
  {
  }

  /** A stream with a preamble whose `user_data` is whole 7-bit characters
      is written back bit for bit. */
  lemma DecodeRewrites(bits: seq<bool>, pos: nat)
    requires pos <= |bits| && DecodeSpec(bits, pos, true).Success?
    requires DecodeLayout(bits, pos, true).Success?
    requires (|bits| - DecodeLayout(bits, pos, true).value - 57) % 7 == 0
    ensures WriteSpec(DecodeSpec(bits, pos, true).value.doc) == Success(bits[pos..])
  {
    DecodeWritesBack(bits, pos, true);
    assert bits[pos..pos + 40] == Preamble() by {
      PreambleStage(bits, pos, true);
    }
    PrefixJoin(bits, pos, pos + 40, Preamble());
  }

  /** A window that equals pre, followed by the rest of the stream, is
      the stream from the window on. */
  lemma PrefixJoin(bits: seq<bool>, i: nat, j: nat, pre: seq<bool>)
    requires i <= j <= |bits| && bits[i..j] == pre
    ensures pre + bits[j..|bits|] == bits[i..]
  {
  }
}
