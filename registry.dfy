/**
 * The host-function list of one guest module namespace: the owned entries
 * (name, function pointer, signature) and, in step with them, the flat
 * descriptors the engine consumes.
 *
 * A descriptor's string pointers are modelled as addresses of the form
 * "the name buffer of entry i" or "the signature buffer of entry i", and
 * `Deref` says what such an address reads as.
 */
module Registry {
  import opened Wrappers
  import opened Signatures

  /** The address of a string owned by an entry of the list. */
  datatype CStrRef = FunctionNameOf(entry: nat) | SignatureOf(entry: nat)

  /** An untyped pointer (`*mut c_void`). */
  datatype VoidPtr = Null | Address(address: nat)

  /** One registered host function; `F` stands for the native function pointer. */
  datatype HostFunction<F> = HostFunction(functionName: CString, functionPtr: F, signature: CString)

  /** The engine-facing descriptor of a host function. */
  datatype NativeSymbol<F> = NativeSymbol(symbol: CStrRef, funcPtr: F, signature: CStrRef, attachment: VoidPtr)

  /** Builds a descriptor from the addresses of a name and a signature; the attachment is null. */
  function PackHostFunction<F>(functionName: CStrRef, functionPtr: F, signature: CStrRef): (r: NativeSymbol<F>)
    ensures r.symbol == functionName && r.funcPtr == functionPtr && r.signature == signature
    ensures r.attachment == Null
  {
    NativeSymbol(functionName, functionPtr, signature, Null)
  }

  /** The string an address reads as, or `None` for an address past the last entry. */
  function Deref<F>(entries: seq<HostFunction<F>>, p: CStrRef): Option<CString>
  {
    if p.entry < |entries| then
      match p
      case FunctionNameOf(i) => Some(entries[i].functionName)
      case SignatureOf(i) => Some(entries[i].signature)
    else None
  }

  /**
   * The two vectors are in step: one descriptor per entry, and descriptor
   * `i` points at entry `i`'s name and signature and carries its function
   * pointer.
   */
  ghost predicate InStep<F>(entries: seq<HostFunction<F>>, symbols: seq<NativeSymbol<F>>)
  {
    |entries| == |symbols| &&
    forall i :: 0 <= i < |symbols| ==>
      symbols[i] == PackHostFunction(FunctionNameOf(i), entries[i].functionPtr, SignatureOf(i))
  }

  /** In-step descriptors resolve to their own entry's strings and have a null attachment. */
  lemma InStepResolves<F>(entries: seq<HostFunction<F>>, symbols: seq<NativeSymbol<F>>, i: nat)
    requires InStep(entries, symbols) && i < |symbols|
    ensures Deref(entries, symbols[i].symbol) == Some(entries[i].functionName)
    ensures Deref(entries, symbols[i].signature) == Some(entries[i].signature)
    ensures symbols[i].funcPtr == entries[i].functionPtr
    ensures symbols[i].attachment == Null
  {
  }

  /**
   * Appending an entry never changes what an existing address reads as, so
   * the descriptors already handed out stay meaningful.
   */
  lemma AppendKeepsAddresses<F>(entries: seq<HostFunction<F>>, e: HostFunction<F>, p: CStrRef)
    requires p.entry < |entries|
    ensures Deref(entries + [e], p) == Deref(entries, p)
  {
  }

  /** Appending an entry together with its descriptor keeps the vectors in step. */
  lemma InStepAppend<F>(entries: seq<HostFunction<F>>, symbols: seq<NativeSymbol<F>>, e: HostFunction<F>)
    requires InStep(entries, symbols)
    ensures InStep(entries + [e],
                   symbols + [PackHostFunction(FunctionNameOf(|entries|), e.functionPtr, SignatureOf(|entries|))])
  {
  }

  class HostFunctionList<F> {
    var moduleName: CString
    /** Owns the strings the descriptors point into. */
    var hostFunctions: seq<HostFunction<F>>
    var nativeSymbols: seq<NativeSymbol<F>>

    ghost predicate Valid()
      reads this
    {
      InStep(hostFunctions, nativeSymbols)
    }

    /** An empty list for the given module; the name must hold no NUL. */
    constructor (moduleName: seq<byte>)
      requires 0 !in moduleName
      ensures Valid()
      ensures this.moduleName == moduleName
      ensures hostFunctions == [] && nativeSymbols == []
    {
      this.moduleName := CStringNew(moduleName).value;
      hostFunctions := [];
      nativeSymbols := [];
    }

    /**
     * Encodes the signature, appends the entry and then a descriptor that
     * points into it. The function name must hold no NUL; the signature never
     * does, so its conversion to a C string cannot fail.
     */
    method RegisterHostFunction(functionName: seq<byte>, functionPtr: F, params: seq<ParamTy>, result: ResultTy)
      requires Valid()
      requires 0 !in functionName
      modifies this
      ensures Valid()
      ensures moduleName == old(moduleName)
      ensures hostFunctions == old(hostFunctions) + [HostFunction(functionName, functionPtr, Signature(params, result))]
      ensures nativeSymbols == old(nativeSymbols) +
        [PackHostFunction(FunctionNameOf(|old(hostFunctions)|), functionPtr, SignatureOf(|old(hostFunctions)|))]
      // descriptors handed out earlier still read as the same strings
      ensures forall i :: 0 <= i < |old(nativeSymbols)| ==>
        Deref(hostFunctions, old(nativeSymbols)[i].symbol) == Deref(old(hostFunctions), old(nativeSymbols)[i].symbol) &&
        Deref(hostFunctions, old(nativeSymbols)[i].signature) == Deref(old(hostFunctions), old(nativeSymbols)[i].signature)
    {
      var signature := new ByteVec();
      for i := 0 to |params|
        invariant signature.bytes == ParamsCode(params[..i])
        invariant unchanged(this)
      {
        params[i].Encode(signature);
        assert params[..i + 1][..i] == params[..i];
      }
      result.Encode(signature);
      assert params[..|params|] == params;
      assert signature.bytes == Signature(params, result);
      var sig := CStringNew(signature.bytes).value;

      InStepAppend(hostFunctions, nativeSymbols, HostFunction(functionName, functionPtr, sig));
      hostFunctions := hostFunctions + [HostFunction(CStringNew(functionName).value, functionPtr, sig)];
      var last := hostFunctions[|hostFunctions| - 1];
      var index := |hostFunctions| - 1;
      nativeSymbols := nativeSymbols + [PackHostFunction(FunctionNameOf(index), last.functionPtr, SignatureOf(index))];

      forall i | 0 <= i < |old(nativeSymbols)|
        ensures Deref(hostFunctions, old(nativeSymbols)[i].symbol) == Deref(old(hostFunctions), old(nativeSymbols)[i].symbol)
        ensures Deref(hostFunctions, old(nativeSymbols)[i].signature) == Deref(old(hostFunctions), old(nativeSymbols)[i].signature)
      {
        AppendKeepsAddresses(old(hostFunctions), last, old(nativeSymbols)[i].symbol);
        AppendKeepsAddresses(old(hostFunctions), last, old(nativeSymbols)[i].signature);
      }
    }

    /**
     * The descriptor list, one per registered function in registration
     * order, each resolving to its own entry's name and signature.
     */
    method GetNativeSymbols() returns (symbols: seq<NativeSymbol<F>>)
      requires Valid()
      ensures symbols == nativeSymbols
      ensures |symbols| == |hostFunctions|
      ensures forall i :: 0 <= i < |symbols| ==>
        Deref(hostFunctions, symbols[i].symbol) == Some(hostFunctions[i].functionName) &&
        Deref(hostFunctions, symbols[i].signature) == Some(hostFunctions[i].signature) &&
        symbols[i].funcPtr == hostFunctions[i].functionPtr &&
        symbols[i].attachment == Null
    {
      symbols := nativeSymbols;
      forall i | 0 <= i < |symbols|
        ensures Deref(hostFunctions, symbols[i].symbol) == Some(hostFunctions[i].functionName)
        ensures Deref(hostFunctions, symbols[i].signature) == Some(hostFunctions[i].signature)
      {
        InStepResolves(hostFunctions, nativeSymbols, i);
      }
    }

    /** The module name, as given to the constructor. */
    method GetModuleName() returns (name: CString)
      ensures name == moduleName
    {
      name := moduleName;
    }
  }
}
