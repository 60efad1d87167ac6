# Host-function signatures and registry of the WAMR Rust SDK, in Dafny

This project models how the SDK exposes native (host) functions to a
WebAssembly guest running on the WAMR engine.

- **Signatures** (`signatures.dfy`): the parameter kinds (`ParamTy`) and
  result kinds (`ResultTy`) map to the engine's calling-convention characters.
  `i`, `I`, `f` and `F` stand for 32/64-bit integers and floats. `$` is a
  string, `*` a pointer and `*~` a buffer; a `Void` result contributes nothing.
  Each kind's `Encode` appends its code to a byte vector in place (`ByteVec`,
  a class over a `seq<byte>`, standing for the `Vec<u8>` passed by `&mut`).
  `Signature(params, result)` is the specification of a whole signature.
  It has type `CString` (a byte sequence without NUL), which shows that the
  conversion to a C string cannot fail. The lemmas prove the length formula,
  the alphabet, that every `~` follows a `*`, and that the parameter part
  decodes back to the parameter list (`DecodeParams`, in both directions).
  The whole signature is not injective (`SignatureNotInjective`); with the
  result kind fixed, it is (`SignatureDeterminesParams`).
- **Registry** (`registry.dfy`): `HostFunctionList` is a class with the
  module name and two sequences: `hostFunctions` owns each function's name,
  pointer and signature, and `nativeSymbols` holds the engine descriptors.
  A descriptor's raw string pointers are modelled as addresses
  `FunctionNameOf(i)` and `SignatureOf(i)` into the entry list. `Deref` reads
  such an address. `Valid()` (`InStep`) states that the two sequences have
  equal length and that descriptor `i` points at entry `i`'s name and
  signature, carries its function pointer, and has a null attachment.
  Registration appends one entry and one descriptor and keeps `Valid()`; the
  module name and all earlier entries are left unchanged.
- `wrappers.dfy` holds the `Option` type.

The native function pointer is a type parameter `F`. Rust's `&str` and
`CString` contents are modelled as byte sequences. The NUL-freedom of the
module name and function name is a precondition: the source unwraps
`CString::new` on them and panics on an interior NUL.

## Model

| member | source | states |
|---|---|---|
| Signatures.ParamTy.Encode | src/host_function.rs:23-33 | appends exactly the kind's table code (one byte, two for `Buffer`) and leaves the earlier buffer contents untouched |
| Signatures.ResultTy.Encode | src/host_function.rs:45-53 | appends the kind's one-byte code, or nothing for `Void`, after the unchanged earlier contents |
| Signatures.CStringNew | src/host_function.rs:87 | C-string conversion succeeds exactly when the bytes hold no NUL, and then keeps the bytes |
| Signatures.ParamsCodeAppend | src/host_function.rs:83-85 | encoding a parameter list is order-preserving: the code of `a + b` is the code of `a` followed by that of `b` |
| Signatures.ParamsCodeCons | src/host_function.rs:83-85 | the first parameter's code comes first, followed by the code of the rest |
| Signatures.ParamsCodeLength | src/host_function.rs:83-85 | the parameter part has one byte per parameter plus one per `Buffer` parameter |
| Signatures.SignatureLength | src/host_function.rs:81-86 | the signature length is the number of parameters plus the number of `Buffer` parameters plus one for a non-`Void` result |
| Signatures.SignatureAlphabet | src/host_function.rs:23-53 | every signature byte is one of `i I f F $ * ~`, none of which is NUL, so the unwrap at line 87 cannot panic |
| Signatures.TildeFollowsStar | src/host_function.rs:31 | a `~` occurs only directly after a `*`, as the tail of a `Buffer` code |
| Signatures.SignatureNotInjective | src/host_function.rs:45-53 | `[I32]` with `Void` and `[]` with `I32` give the same signature |
| Signatures.DecodeEncode | src/host_function.rs:23-33 | the parameter codes are prefix-free: decoding the parameter part gives back the parameter list |
| Signatures.EncodeDecode | src/host_function.rs:23-33 | any byte string that decodes to a parameter list is exactly that list's encoding |
| Signatures.ParamsCodeInjective | src/host_function.rs:83-85 | two parameter lists with the same parameter part are equal |
| Signatures.SignatureDeterminesParams | src/host_function.rs:81-86 | with the result kind fixed, equal signatures mean equal parameter lists |
| Registry.PackHostFunction | src/host_function.rs:109-116 | builds the descriptor from the name and signature addresses and the function pointer, with a null attachment |
| Registry.InStepResolves | src/host_function.rs:109-116 | a descriptor in step with the entries resolves to its entry's name and signature, carries its function pointer, and has a null attachment |
| Registry.AppendKeepsAddresses | src/host_function.rs:89-93 | appending an entry does not change what an existing name or signature address reads as |
| Registry.InStepAppend | src/host_function.rs:89-97 | appending an entry together with a descriptor packed from that entry's addresses keeps the two vectors in step |
| Registry.HostFunctionList.constructor | src/host_function.rs:73-79 | a new list stores the module name and starts with no entries and no descriptors, in step |
| Registry.HostFunctionList.RegisterHostFunction | src/host_function.rs:81-98 | appends one entry with the given name, pointer and `Signature(params, result)`, and one descriptor pointing at that entry with a null attachment. The module name and all earlier entries and descriptors are unchanged, every earlier descriptor still reads as the same name and signature, and the vectors stay in step |
| Registry.HostFunctionList.GetNativeSymbols | src/host_function.rs:100-102 | returns the descriptors, one per entry in registration order, each resolving to its own entry's name and signature with that entry's pointer and a null attachment |
| Registry.HostFunctionList.GetModuleName | src/host_function.rs:104-106 | returns the stored module name unchanged |

## Left out

- `src/instance.rs` is not part of this model. Thread-environment setup,
  instantiation, user-data installation and teardown are foreign calls into
  the engine, and their ordering depends on engine behaviour that is not visible.
- `src/user_data.rs` is not part of this model. `Caller` reinterprets an
  untyped pointer returned by the engine, which has no behaviour that can be
  stated without the engine.
- The tests at `src/host_function.rs:118-202` run a real engine on a `.wasm`
  file; their expected results come from guest execution.
- Pointer lifetime and aliasing: `as_ptr()` yields raw pointers into heap
  buffers that survive reallocation of the vector. The model uses entry
  indices instead of addresses, so it does not capture memory safety.
- Registry.HostFunctionList.GetNativeSymbols: returns the descriptor sequence
  as a value. The source hands out a `&mut Vec`, and the caller's mutations
  through it are not modelled.
- The fields `module_name` and `native_symbols` are public in the source, so
  callers may break the in-step invariant directly; the model assumes they
  do not.
- Whether the engine accepts a produced signature is decided inside the
  engine and is not modelled.
- `F32` and `F64` are only tags; no floating-point arithmetic is involved.
- A NUL byte in the module name or a function name makes the source panic;
  the model makes NUL-freedom a precondition of the constructor and of
  `RegisterHostFunction` instead of modelling the panic.
