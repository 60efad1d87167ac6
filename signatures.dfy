/**
 * The calling-convention signature of a host function, as the WAMR engine
 * reads it: one or two characters per parameter, in declaration order,
 * followed by zero or one character for the result.
 */
module Signatures {
  import opened Wrappers

  /** Rust's `u8`. */
  newtype byte = x: int | 0 <= x < 256

  /** The bytes of a C string: anything but the NUL terminator. */
  type CString = s: seq<byte> | 0 !in s

  /** `CString::new`: refuses exactly the byte strings that hold a NUL. */
  function CStringNew(bytes: seq<byte>): (r: Option<CString>)
    ensures r.Some? <==> 0 !in bytes
    ensures r.Some? ==> r.value == bytes
  {
    if 0 in bytes then None else Some(bytes)
  }

  /** The characters a signature may contain. */
  const Alphabet: set<byte> :=
    {'i' as byte, 'I' as byte, 'f' as byte, 'F' as byte, '$' as byte, '*' as byte, '~' as byte}

  /** A growable byte vector (`Vec<u8>`) that the encoders push into in place. */
  class ByteVec {
    var bytes: seq<byte>

    constructor ()
      ensures bytes == []
    {
      bytes := [];
    }
  }

  /** The kind of a host-function parameter. */
  datatype ParamTy = I32 | I64 | F32 | F64 | Str | Pointer | Buffer
  {
    /** The characters this kind contributes to a signature. */
    function Code(): seq<byte>
    {
      match this
      case I32 => ['i' as byte]
      case I64 => ['I' as byte]
      case F32 => ['f' as byte]
      case F64 => ['F' as byte]
      case Str => ['$' as byte]
      case Pointer => ['*' as byte]
      case Buffer => ['*' as byte, '~' as byte]
    }

    /** Appends this kind's code to `buf`, leaving what was there untouched. */
    method Encode(buf: ByteVec)
      modifies buf
      ensures buf.bytes == old(buf.bytes) + Code()
      ensures |buf.bytes| == |old(buf.bytes)| + (if Buffer? then 2 else 1)
    {
      match this
      case I32 => buf.bytes := buf.bytes + ['i' as byte];
      case I64 => buf.bytes := buf.bytes + ['I' as byte];
      case F32 => buf.bytes := buf.bytes + ['f' as byte];
      case F64 => buf.bytes := buf.bytes + ['F' as byte];
      case Str => buf.bytes := buf.bytes + ['$' as byte];
      case Pointer => buf.bytes := buf.bytes + ['*' as byte];
      case Buffer => buf.bytes := buf.bytes + ['*' as byte, '~' as byte];
    }
  }

  /** The kind of a host-function result. */
  datatype ResultTy = I32 | I64 | F32 | F64 | Void
  {
    /** The characters this kind contributes to a signature. */
    function Code(): seq<byte>
    {
      match this
      case I32 => ['i' as byte]
      case I64 => ['I' as byte]
      case F32 => ['f' as byte]
      case F64 => ['F' as byte]
      case Void => []
    }

    /** Appends this kind's code to `buf`; `Void` appends nothing. */
    method Encode(buf: ByteVec)
      modifies buf
      ensures buf.bytes == old(buf.bytes) + Code()
      ensures |buf.bytes| == |old(buf.bytes)| + (if Void? then 0 else 1)
    {
      match this
      case I32 => buf.bytes := buf.bytes + ['i' as byte];
      case I64 => buf.bytes := buf.bytes + ['I' as byte];
      case F32 => buf.bytes := buf.bytes + ['f' as byte];
      case F64 => buf.bytes := buf.bytes + ['F' as byte];
      case Void =>
    }
  }

  /** The parameter part of a signature: each parameter's code, in order. */
  function ParamsCode(ps: seq<ParamTy>): seq<byte>
  {
    if ps == [] then [] else ParamsCode(ps[..|ps| - 1]) + ps[|ps| - 1].Code()
  }

  /** The whole signature: the parameter codes followed by the result code. */
  function Signature(ps: seq<ParamTy>, r: ResultTy): CString
  {
    CodeAlphabet(ps, r);
    ParamsCode(ps) + r.Code()
  }

  /** How many parameters are buffers, each of which takes two characters. */
  function BufferCount(ps: seq<ParamTy>): nat
  {
    multiset(ps)[ParamTy.Buffer]
  }

  // ---------------------------------------------------------------------------
  // Properties of the encoding

  /** Encoding distributes over concatenation of parameter lists. */
  lemma {:induction false} ParamsCodeAppend(a: seq<ParamTy>, b: seq<ParamTy>)
    ensures ParamsCode(a + b) == ParamsCode(a) + ParamsCode(b)
    decreases |b|
  {
    if b == [] {
      assert a + b == a;
    } else {
      var n := |b| - 1;
      assert (a + b)[..|a + b| - 1] == a + b[..n];
      assert (a + b)[|a + b| - 1] == b[n];
      ParamsCodeAppend(a, b[..n]);
    }
  }

  /** The code of a list is its first element's code followed by the rest. */
  lemma {:induction false} ParamsCodeCons(p: ParamTy, ps: seq<ParamTy>)
    ensures ParamsCode([p] + ps) == p.Code() + ParamsCode(ps)
  {
    ParamsCodeAppend([p], ps);
    assert [p][..0] == [];
  }

  /**
   * A signature has one character per parameter, one more per buffer
   * parameter, and one for a non-void result.
   */
  lemma {:induction false} SignatureLength(ps: seq<ParamTy>, r: ResultTy)
    ensures |Signature(ps, r)| == |ps| + BufferCount(ps) + (if r.Void? then 0 else 1)
  {
    ParamsCodeLength(ps);
  }

  lemma {:induction false} ParamsCodeLength(ps: seq<ParamTy>)
    ensures |ParamsCode(ps)| == |ps| + BufferCount(ps)
    decreases |ps|
  {
    if ps != [] {
      var n := |ps| - 1;
      assert ps == ps[..n] + [ps[n]];
      assert multiset(ps) == multiset(ps[..n]) + multiset{ps[n]};
      ParamsCodeLength(ps[..n]);
    }
  }

  /** Every character of a signature is in the alphabet, so none is NUL. */
  lemma {:induction false} SignatureAlphabet(ps: seq<ParamTy>, r: ResultTy)
    ensures forall k :: 0 <= k < |Signature(ps, r)| ==> Signature(ps, r)[k] in Alphabet
    ensures 0 !in Alphabet
  {
    ParamsCodeAlphabet(ps);
  }

  /** The fact behind `Signature`'s type: the bytes it concatenates hold no NUL. */
  lemma {:induction false} CodeAlphabet(ps: seq<ParamTy>, r: ResultTy)
    ensures 0 !in ParamsCode(ps) + r.Code()
  {
    ParamsCodeAlphabet(ps);
  }

  lemma {:induction false} ParamsCodeAlphabet(ps: seq<ParamTy>)
    ensures forall k :: 0 <= k < |ParamsCode(ps)| ==> ParamsCode(ps)[k] in Alphabet
    decreases |ps|
  {
    if ps != [] {
      ParamsCodeAlphabet(ps[..|ps| - 1]);
    }
  }

  /** A `~` occurs only directly after a `*`, as the tail of a buffer code. */
  lemma {:induction false} TildeFollowsStar(ps: seq<ParamTy>, r: ResultTy)
    ensures forall k :: 0 <= k < |Signature(ps, r)| && Signature(ps, r)[k] == '~' as byte ==>
      0 < k && Signature(ps, r)[k - 1] == '*' as byte
  {
    ParamsCodeTilde(ps);
  }

  lemma {:induction false} ParamsCodeTilde(ps: seq<ParamTy>)
    ensures forall k :: 0 <= k < |ParamsCode(ps)| && ParamsCode(ps)[k] == '~' as byte ==>
      0 < k && ParamsCode(ps)[k - 1] == '*' as byte
    decreases |ps|
  {
    if ps != [] {
      ParamsCodeTilde(ps[..|ps| - 1]);
    }
  }

  /**
   * The whole signature is not injective: a result code can be read as a
   * parameter code.
   */
  lemma SignatureNotInjective()
    ensures Signature([ParamTy.I32], ResultTy.Void) == Signature([], ResultTy.I32)
  {
  }

  // ---------------------------------------------------------------------------
  // Decoding the parameter part

  /** The parameter kind a single-character code stands for. */
  function DecodeOne(b: byte): Option<ParamTy>
  {
    if b == 'i' as byte then Some(ParamTy.I32)
    else if b == 'I' as byte then Some(ParamTy.I64)
    else if b == 'f' as byte then Some(ParamTy.F32)
    else if b == 'F' as byte then Some(ParamTy.F64)
    else if b == '$' as byte then Some(ParamTy.Str)
    else if b == '*' as byte then Some(ParamTy.Pointer)
    else None
  }

  function Prepend(p: ParamTy, rest: Option<seq<ParamTy>>): Option<seq<ParamTy>>
  {
    match rest
    case None => None
    case Some(ps) => Some([p] + ps)
  }

  /**
   * Reads a parameter part back into kinds: `*~` is a buffer, a `*` not
   * followed by `~` is a pointer.
   */
  function DecodeParams(s: seq<byte>): Option<seq<ParamTy>>
    decreases |s|
  {
    if s == [] then Some([])
    else if s[0] == '*' as byte && |s| >= 2 && s[1] == '~' as byte then
      Prepend(ParamTy.Buffer, DecodeParams(s[2..]))
    else
      match DecodeOne(s[0])
      case None => None
      case Some(p) => Prepend(p, DecodeParams(s[1..]))
  }

  /** No parameter part starts with `~`. */
  lemma {:induction false} ParamsCodeHead(ps: seq<ParamTy>)
    requires ps != []
    ensures ParamsCode(ps) != [] && ParamsCode(ps)[0] == ps[0].Code()[0]
    ensures ParamsCode(ps)[0] != '~' as byte
  {
    ParamsCodeCons(ps[0], ps[1..]);
    assert [ps[0]] + ps[1..] == ps;
  }

  /** Decoding one code in front of a part that does not start with `~`. */
  lemma DecodeCons(p: ParamTy, s: seq<byte>)
    requires s == [] || s[0] != '~' as byte
    ensures DecodeParams(p.Code() + s) == Prepend(p, DecodeParams(s))
  {
    var t := p.Code() + s;
    if p.Buffer? {
      assert t[2..] == s;
    } else {
      assert t[1..] == s;
    }
  }

  /** Decoding the parameter part gives back the parameter list. */
  lemma {:induction false} DecodeEncode(ps: seq<ParamTy>)
    ensures DecodeParams(ParamsCode(ps)) == Some(ps)
    decreases |ps|
  {
    if ps != [] {
      var p, rest := ps[0], ps[1..];
      assert [p] + rest == ps;
      ParamsCodeCons(p, rest);
      DecodeEncode(rest);
      if rest != [] {
        ParamsCodeHead(rest);
      }
      DecodeCons(p, ParamsCode(rest));
    }
  }

  /** Whatever decodes to a parameter list is that list's encoding. */
  lemma {:induction false} EncodeDecode(s: seq<byte>, ps: seq<ParamTy>)
    requires DecodeParams(s) == Some(ps)
    ensures ParamsCode(ps) == s
    decreases |s|
  {
    if s == [] {
    } else if s[0] == '*' as byte && |s| >= 2 && s[1] == '~' as byte {
      var rest := DecodeParams(s[2..]).value;
      EncodeDecode(s[2..], rest);
      assert ps == [ParamTy.Buffer] + rest;
      ParamsCodeCons(ParamTy.Buffer, rest);
      assert s == s[..2] + s[2..];
    } else {
      var p := DecodeOne(s[0]).value;
      var rest := DecodeParams(s[1..]).value;
      EncodeDecode(s[1..], rest);
      assert ps == [p] + rest;
      ParamsCodeCons(p, rest);
      assert s == [s[0]] + s[1..];
    }
  }

  /** The parameter code is injective: distinct lists encode differently. */
  lemma {:induction false} ParamsCodeInjective(a: seq<ParamTy>, b: seq<ParamTy>)
    requires ParamsCode(a) == ParamsCode(b)
    ensures a == b
  {
    DecodeEncode(a);
    DecodeEncode(b);
  }

  /** With the result kind fixed, a signature determines its parameters. */
  lemma {:induction false} SignatureDeterminesParams(a: seq<ParamTy>, b: seq<ParamTy>, r: ResultTy)
    requires Signature(a, r) == Signature(b, r)
    ensures a == b
  {
    var sa, sb := ParamsCode(a), ParamsCode(b);
    assert |sa| == |sb|;
    assert sa == Signature(a, r)[..|sa|];
    assert sb == Signature(b, r)[..|sb|];
    ParamsCodeInjective(a, b);
  }
}
