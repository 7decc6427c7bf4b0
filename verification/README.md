# Proofs about the zero-knowledge machine, its circuits, and the code around them

This project models the parts of the repository that its guarantees rest on, and proves what they
promise. Everything is stated over an arbitrary prime field (`Field.MODULUS` is any prime), an
uninterpreted hash for Merkle nodes, and an arbitrary module over the scalars for the curve, so that
nothing depends on the curve or the hash functions in use.

## What is modelled

* **Merkle trees** (`PerfectTree`, `Frontiers`, `Witnesses`, `MerkleTrees`). The commitment tree keeps
  one slot per level, like the digits of a binary counter; the witness keeps roots of filled gaps and a
  moving subtree. The values of both are related to the lists of leaves that they stand for, and the
  classes, which update slots, queues and cursors in place, are proved against these values. The depth
  is a parameter throughout; the repository fixes it to 4. The tree follows section 3.8 and the path
  section 4.9 of the Zcash Protocol Specification.
* **Integers, the prime field and polynomials** (`Euclid`, `Field`, `Polynomials`, `PolynomialLaws`,
  `Interpolation`): Euclid's algorithms with Python's rounding division, inverses, long division,
  interpolation, and the equivalence between a list of constraints and one divisibility.
* **The machine and its compiler** (`Vm`, `Circuit`, `Assembly`, `Compiler`, `Simulation`, `LocalSlots`,
  `CompilerCorrect`, `SourceSteps`, `FreshLocals`). The source language is given a meaning on names, line by line; the
  compiled operations are shown to do the same on indices, and the generated constraints to say the
  same. A source run and the machine agree on values, on errors and on where they occur.
* **Three circuits** (`Mimc`, `MimcCorrect`, `Edwards`, `JubjubCircuit`, `JubjubCorrect`, `Bits`,
  `BitsCircuit`), written out as the source lines of their templates, for any number of rounds or bits.
  The results are about the compiled contract: what its run computes and which assignments satisfy its
  generated constraints.
* **The binary format and the book-keeping of public values** (`Endian`, `Utf8`, `Serial`,
  `ContractFormat`, `ContractCanonical`, `ContractExporter`, `ContractDecoder`, `ContractRoundTrip`,
  `CompiledContract`, `Lib`,
  `EndToEnd`). `CompiledContract` joins the format to the compiler, so that the decoded contract does what
  the source says, and `EndToEnd` goes on to what its prover shows and its verifier rebuilds.
* **Packets** (`Wire`), **transactions** (`Curves`, `Transactions`, `TransactionBuilder`,
  `TransactionVerifier`) and the **Lisp front end** (`LispValues`, `Quasiquote`, `LispText`,
  `LispReader`, `LispRoundTrip`, `LispSyntax`).

Random values, iteration orders of hash maps, hash functions, proof systems and encodings of curve
points are parameters. A panic of the source is a result of its own. Strings are the bytes of their
UTF-8 encoding, except in the Lisp front end, which works on characters.

## Where the code does not do what one would expect

* `proofs/jubjub.psm` computes A and B as products but does not constrain them, so that satisfying all
  constraints does not make the output the sum of the inputs. `JubjubCorrect.FreeProductsChangeSum` is
  an instance on the curve, `JubjubCorrect.NoSumAccepted` one whose points have no sum;
  `JubjubCorrect.OutputsSumIff` says exactly when the output is the sum. A zero denominator leaves a
  coordinate free: `JubjubCorrect.ZeroDenominatorFreesOutput`.
* The header of an exported contract counts the characters of the name, the decoder bytes
  (`scripts/compile_export_supervisor.py:85`), so that contracts come back exactly when their names are
  ASCII. `ContractFormat.AccentedNameFails` is an instance.
* A `local` that is declared again moves to another slot, which a later name may share
  (`scripts/compile.py:259`). `FreshLocals.AllRunFreshIffDistinctBeforeLast` says for which lists of
  declarations every local is a new one. The MiMC template redeclares its one register in every round,
  and is correct because it declares no other and writes it before reading it.
* The compiler checks that the second argument of `load` is a constant but not that the first is none
  (`scripts/compile.py:268-274`). The exporter then writes the kind of the last reference before it
  (`scripts/compile_export_supervisor.py:140-144`), so that the load overwrites some variable or local:
  `ContractRoundTrip.LoadIntoConstantWritten`. No other operation line is affected.
* 256 bits do not determine a scalar when the modulus is smaller than 2^256: `Bits.UniqueIffFits`.
* The reader takes `~` directly before `@` for the mark of splicing (`lisp/reader.rs:35`), so that unquoting a
  dereferenced form needs white space in between: `LispSyntax.ReadAsMeantIff`.
* `read_packet` accepts an empty command (`Wire.EmptyCommandIsRead`), on which `send_packet` stops the
  program after writing the length (`src/net/messages.rs:214`): a packet that was read can be sent again
  exactly when its command is not empty, `Wire.ResentIffCommandNotEmpty`.

## Model

| member | source | states |
|---|---|---|
| `Frontiers.SizeCountsLeaves` | src/crypto/merkle.rs:92-107 | The size read off the slots is the number of leaves that the frontier stands for. |
| `Frontiers.CompleteIffFull` | src/crypto/merkle.rs:109-114 | A tree of depth D, for every D above zero, is complete exactly when it holds 2^D leaves. |
| `Frontiers.AppendRecords` | src/crypto/merkle.rs:123-155 | Appending is refused exactly on 2^D leaves; otherwise the new frontier stands for the old leaves and the new one. |
| `Frontiers.CarryPacks` | src/crypto/merkle.rs:137-150 | The carry loop puts a complete block after the packed ones: a run of occupied slots is merged, as in adding one to a binary number. |
| `Frontiers.RootWithFiller` | src/crypto/merkle.rs:162-187 | With a queue of roots of the gaps, the root is that of the padded tree over the tree's leaves followed by those that the queue stands for. |
| `Frontiers.RootIsPaddedRoot` | src/crypto/merkle.rs:162-187 | With an empty queue the root is the recursive root of all leaves padded with blanks to 2^D. |
| `Frontiers.TreeRun` | src/crypto/merkle.rs:93-187 | From the empty tree, every list of leaves can be appended exactly when there are at most 2^D; then size and root are those of the full tree over that list. |
| `PerfectTree.PaddedEmpty` | src/crypto/coin.rs:94-103 | The root of a tree of blanks is the empty root of its depth. |
| `PerfectTree.FourLeaves` | src/crypto/coin.rs:68-72 | Four leaves: the left of two nodes comes first, and nodes are combined with the level of their children. |
| `MerkleTrees.BuildEmptyRoots` | src/crypto/coin.rs:94-103 | The loop computes the empty root of every depth up to the given one. |
| `Witnesses.NextDepthIsGap` | src/crypto/merkle.rs:286-318 | The next depth is the depth of the first gap of the tree that is not filled yet, and the depth of the tree when all are. |
| `Witnesses.WitnessAppendTracks` | src/crypto/merkle.rs:327-357 | A witness that tracks a tree and later leaves refuses a leaf exactly when the tree has 2^D leaves; otherwise the new witness tracks one leaf more, and none of its expectations fails. |
| `Witnesses.WitnessRootIsPaddedRoot` | src/crypto/merkle.rs:274-283 | The root of a witness is the root of the padded tree over all leaves, those of the tree it was made from and those appended since. |
| `Witnesses.WitnessPathIsValid` | src/crypto/merkle.rs:373-401 | The path has D entries, its booleans are the bits of the witnessed position, lowest first, and applied to the witnessed leaf it gives the current root. |
| `Witnesses.WitnessRun` | src/crypto/merkle.rs:189-194 | For every depth, every tree and every list of leaves appended to the tree and to its witness: both refuse the same leaves, nothing panics, and after every step root, path and position agree with the padded tree. |
| `MerkleTrees.PathFiller.Next` | src/crypto/merkle.rs:39-43 | Takes the front of the queue, or the empty root of the depth when it is empty. |
| `MerkleTrees.CommitmentTree.Size` | src/crypto/merkle.rs:92-107 | Computes the number of leaves. |
| `MerkleTrees.CommitmentTree.AppendInner` | src/crypto/merkle.rs:123-155 | In place: on a full tree nothing changes and the answer is no, otherwise the tree stands for one leaf more. |
| `MerkleTrees.CommitmentTree.RootInner` | src/crypto/merkle.rs:162-187 | Computes the root with the given filler in the three phases of the source. |
| `MerkleTrees.CommitmentTree.RootAt` | src/crypto/merkle.rs:157-160 | The root is that of the padded tree over the leaves. |
| `MerkleTrees.IncrementalWitness.FindNextDepth` | src/crypto/merkle.rs:286-318 | Computes the depth of the next gap with the skip counter of the source. |
| `MerkleTrees.IncrementalWitness.AppendInner` | src/crypto/merkle.rs:327-357 | In place: the witness tracks one leaf more, or answers no when the tree is full. |
| `MerkleTrees.IncrementalWitness.RootInner` | src/crypto/merkle.rs:364-366 | Computes the root of the padded tree over all leaves. |
| `MerkleTrees.IncrementalWitness.PathInner` | src/crypto/merkle.rs:373-401 | Computes the path, of D entries, that belongs to the witnessed position and leads to the current root. |
| `Euclid.FloorDivMod` | scripts/finite_fields/euclidean.py:9-9 | Quotient and remainder as Python rounds them: the remainder is smaller than the divisor in absolute value and has its sign. |
| `Euclid.Gcd` | scripts/finite_fields/euclidean.py:4-12 | Terminates on any two integers with a greatest common divisor of them. |
| `Euclid.ExtendedEuclid` | scripts/finite_fields/euclidean.py:19-34 | Terminates on any two integers with x a + y b = d, where d is a greatest common divisor of a and b. |
| `Field.Inverse` | scripts/finite_fields/modp.py:51-59 | Fails exactly on zero; on every other residue of the prime the result times it is one. |
| `Field.NoZeroDivisors` | scripts/finite_fields/modp.py:10-59 | A product of residues of a prime is zero only if a factor is. |
| `Field.InverseUnique` | scripts/finite_fields/modp.py:51-59 | Whatever multiplies with an element to one is its inverse. |
| `Polynomials.Strip` | scripts/finite_fields/polynomial.py:9-17 | Removes exactly the trailing zeros: the same coefficients, and no zero at the end. |
| `Polynomials.Multiply` | scripts/finite_fields/polynomial.py:81-91 | The nested loops compute the convolution of the coefficients. |
| `Polynomials.DivMod` | scripts/finite_fields/polynomial.py:95-122 | Fails exactly on the zero divisor; else terminates with dividend = quotient times divisor plus remainder, and a remainder of smaller degree than the divisor. |
| `PolynomialLaws.EvalMul` | scripts/finite_fields/polynomial.py:81-91 | The value of a product is the product of the values. |
| `PolynomialLaws.EvalAdd` | scripts/finite_fields/polynomial.py:75-77 | The value of a sum is the sum of the values. |
| `PolynomialLaws.MulCommutes` | scripts/finite_fields/polynomial.py:81-91 | Multiplication is commutative. |
| `PolynomialLaws.MulDegree` | scripts/finite_fields/polynomial.py:81-91 | Degrees of non-zero polynomials add up. |
| `PolynomialLaws.TooManyRoots` | scripts/zk/4.5.2-multi-operation-polynomials.py:69-77 | A polynomial that vanishes at more distinct points than its degree is zero. |
| `Interpolation.PolyCall` | scripts/zk/4.5.2-multi-operation-polynomials.py:35-39 | The loop over the coefficients computes the value of the polynomial. |
| `Interpolation.Lagrange` | scripts/zk/4.5.2-multi-operation-polynomials.py:22-33 | Fails exactly when two points have the same x in the field; else the result has at most as many coefficients as there are points and passes through all of them. |
| `Interpolation.DivisibleIffVanishes` | scripts/zk/4.5.2-multi-operation-polynomials.py:69-77 | A polynomial is target times quotient exactly when it vanishes at 1 to n. |
| `Interpolation.CheckConstraints` | scripts/zk/4.5.2-multi-operation-polynomials.py:69-77 | For constraints at 1 to n: the interpolation fails exactly when n exceeds the modulus; else left times right minus output equals target times the computed cofactor exactly when every constraint holds. |
| `Vm.ZkVirtualMachine.Initialize` | src/vm.rs:85-265 | Computes the variables from the parameters, stops at the first error with that error, or panics, as the run of the operations says. |
| `Vm.ZkVirtualMachine.Execute` | src/vm.rs:100-262 | One operation does what its meaning on the state says; division and inversion use the inverse that the field provides. |
| `Vm.ZkVirtualMachine.Unpack` | src/vm.rs:225-230 | The bit loop overwrites exactly 256 cells by the bits of the value, lowest first. |
| `Vm.UnpackedIff` | src/vm.rs:195-231 | A range is unpacked into exactly when both ends are variables or both locals and it has 256 cells that exist; these take the bits, the rest stays; any other range is an error. |
| `Vm.TargetSolves` | src/vm.rs:105-236 | What is written is the sum, product, difference, quotient, inverse or constant asked for, stated as an equation in integers modulo the field; nothing else changes. |
| `Vm.PanicsIff` | src/vm.rs:100-262 | An operation stops the program exactly when a variable or constant it looks up does not exist. |
| `Vm.ZkVirtualMachine.PublicValues` | src/vm.rs:267-279 | The public variables with their values, in the order of the allocation table. |
| `Circuit.Allocate` | src/vm.rs:346-357 | One variable for every entry; the value of an entry of the table stands in the list of its kind after those before it, and setup looks no value up. |
| `Circuit.Generate` | src/vm.rs:359-439 | Fails exactly on an index out of range; else one constraint for every enforce, equal to the declarative meaning of the segment before it. |
| `Circuit.Synthesize` | src/vm.rs:340-440 | Fails exactly on an index out of range; allocates every entry its value; the constraints do not depend on the values, so that setup, which has none, generates those of the prover. |
| `Circuit.SetupAllocatesAsProver` | src/vm.rs:346-357 | Setup allocates as many inputs and private variables as the prover gives values for. |
| `Circuit.AssignmentIsAux` | src/vm.rs:346-357 | The assignment that the allocated lists make up gives every variable of the table the machine's value. |
| `Circuit.CoefficientWeighs` | src/vm.rs:359-439 | The coefficient weighs added and subtracted variables, is doubled, and is reset. |
| `Circuit.EnforceStartsAgain` | src/vm.rs:420-430 | After an enforce the coefficient is one and the sides are empty. |
| `Circuit.SatisfiedIffChecks` | src/vm.rs:364-439 | The generated constraints hold of an assignment exactly when executing the instructions on its values, with a running coefficient, succeeds at every enforce. |
| `Compiler.GenerateAllocTable` | scripts/compile.py:179-207 | The loop computes the allocation table, or nothing when a symbol is declared twice. |
| `Compiler.TableIsWellFormed` | scripts/compile.py:179-207 | Every variable stands at its own index, no symbol twice, and no public variable is a parameter. |
| `Compiler.TableFollowsLines` | scripts/compile.py:179-207 | The table has an entry for every allocation line, in their order: `public` makes a public variable, the others private ones, and only `param` a parameter. |
| `Compiler.SymbolsToRefs` | scripts/compile.py:230-248 | Every symbol is looked up among variables, then locals, then constants; it fails if one is none of them. |
| `Compiler.GenerateOpsTable` | scripts/compile.py:250-281 | The loop computes the operations and the slots of the locals, or fails where the source does. |
| `Compiler.SymbolsToLcArgs` | scripts/compile.py:293-307 | Every symbol is looked up among variables, then constants. |
| `Compiler.GenerateConstraintsTable` | scripts/compile.py:309-316 | The loop computes the constraint instructions. |
| `Compiler.Compile` | scripts/compile.py:358-370 | The three tables, or nothing as soon as one fails. |
| `LocalSlots.NoClashIffInjective` | scripts/compile.py:253-260 | The slots of the locals are distinct at every point exactly when no declaration takes the slot of another name. |
| `LocalSlots.RedeclarationClashes` | scripts/compile.py:259-259 | Declaring a name twice and then another gives both names the same slot. |
| `LocalSlots.DistinctNoClash` | scripts/compile.py:259-259 | If every name is declared once there is no clash. |
| `LocalSlots.OneNameNoClash` | scripts/compile.py:259-259 | Declaring one name over and over does not clash either. |
| `Simulation.StepSimulates` | src/vm.rs:100-262 | A compiled line does to the machine's state what the source line does to the values of names. |
| `CompilerCorrect.CompiledRunsAsSource` | scripts/compile.py:230-281 | Running the compiled operations is running the source: same values under every name, same error at the same line, never an index out of range. |
| `CompilerCorrect.EncodableIffTargetNotConstant` | scripts/compile.py:268-278 | A compiled operation line has an instruction that refers to what its symbols name exactly when it is not a load into a constant; what is written for such a load is a matter of the exporter. |
| `CompilerCorrect.LoadIntoConstantCompiles` | scripts/compile.py:268-274 | A load into a constant does compile, although no instruction stands for it. |
| `FreshLocals.SameRun` | scripts/compile.py:250-266 | While no name but the last is declared twice, the source's run is the run in which every declaration makes a new local, with value zero. |
| `FreshLocals.TelltaleNotFresh` | scripts/compile.py:259-259 | A program for any other list of names: writing the repeated name changes a local declared after it, which shows in a variable. |
| `FreshLocals.AllRunFreshIffDistinctBeforeLast` | scripts/compile.py:250-281 | Every program that makes these declarations, or the first of them, runs as if each made a new local exactly when no name but the last was declared before. |
| `CompilerCorrect.EncodableIffConstantsInPlace` | scripts/compile_export_supervisor.py:152-166 | A compiled constraint has an instruction exactly when its constants stand where constants belong. |
| `CompilerCorrect.CompiledConstrainsAsSource` | scripts/compile.py:293-316 | The constraints generated from the compiled instructions hold of an assignment to indices exactly when the source's constraints hold of the same assignment to names. |
| `SourceSteps.WellPlacedWorks` | scripts/compile.py:358-370 | A contract whose symbols all stand where they may, and whose locals do not clash, compiles, has an instruction for every line and can be run. |
| `Mimc.ComputeHash` | src/bin/mimc.rs:15-30 | The loop computes the hash, for any list of round constants. |
| `Mimc.CircuitWorks` | proofs/mimc.psm:3-59 | The contract compiles for any number of rounds, although it declares its register once a round. |
| `MimcCorrect.SatisfiedIffTrace` | proofs/mimc.psm:3-59 | Sound: an assignment satisfies the generated constraints exactly when every variable is what hashing its two inputs computes; the public output is the reference hash. |
| `MimcCorrect.RunSatisfies` | proofs/mimc.psm:3-59 | Complete: from any two inputs the machine ends without error, with the reference hash as output, in variables that satisfy the constraints. |
| `Edwards.FactoredIsTextbook` | scripts/jubjub.py:16-60 | The factored form gives the textbook sum on all points, and fails on the same ones. |
| `Edwards.SumOnCurve` | scripts/jubjub.py:11-27 | With a = -1, the sum of two points on the curve, where it exists, is on the curve. |
| `JubjubCircuit.CircuitWorks` | proofs/jubjub.psm:79-102 | The contract compiles, has an instruction for every line and can be run. |
| `JubjubCorrect.RunAddsPoints` | proofs/jubjub.psm:5-102 | From any two points the machine computes the textbook sum in variables that satisfy all constraints, and stops with a division by zero exactly where the sum does not exist. |
| `JubjubCorrect.SatisfiedIffEquations` | proofs/jubjub.psm:16-101 | The generated constraints are six equations; none of them says that A and B are the two products. |
| `JubjubCorrect.OutputsSumIff` | proofs/jubjub.psm:24-58 | An assignment that satisfies the generated constraints with non-zero denominators outputs the sum of its points exactly when A + B and C are what the points determine, or the sum exists, has equal coordinates and A + B moves along with C. |
| `JubjubCorrect.ZeroDenominatorFreesOutput` | proofs/jubjub.psm:44-76 | Where a denominator is zero, a satisfying assignment stays one whatever that coordinate of the output is changed to. |
| `JubjubCorrect.NoSumAccepted` | proofs/jubjub.psm:24-58 | Assignments that satisfy the generated constraints, with non-zero denominators, although their points have no sum. |
| `JubjubCorrect.FreeProductsChangeSum` | proofs/jubjub.psm:24-42 | An assignment that satisfies the generated constraints, with non-zero denominators and points on the curve as inputs, whose output is not their sum. |
| `Bits.UniqueIffFits` | proofs/bits.psm:10-27 | Every element has at most one decomposition into n bits exactly when 2^n is at most the modulus. |
| `Bits.UnpackedDecomposes` | src/vm.rs:225-230 | The low n bits of x stand for x exactly when x is below 2^n. |
| `Bits.WeightedSumIsNumber` | proofs/bits.psm:20-27 | Doubling the coefficient from bit to bit sums 2^i b_i. |
| `BitsCircuit.SatisfiedIffDecomposes` | proofs/bits.psm:10-27 | For any number of bits, the generated constraints hold exactly when every b_i is 0 or 1 and the sum of 2^i b_i is x in the field. |
| `BitsCircuit.RunUnpacks` | proofs/bits.psm:1-28 | With 256 bits the machine computes the bits of x, which satisfy the constraints exactly when x is below 2^256; with any other number it fails with a malformed range. |
| `Endian.BytesThenValue` | src/endian.rs:14-52 | Writing n bytes and reading them back keeps the number modulo 256^n. |
| `Endian.ValueThenBytes` | src/endian.rs:14-52 | Reading bytes and writing them back keeps all of them. |
| `Endian.ToArrayLe` | src/endian.rs:40-52 | The loop fills the array with the little-endian bytes. |
| `Endian.SliceToLe` | src/endian.rs:14-26 | The loop computes the little-endian value. |
| `Endian.ToArrayBe` | src/endian.rs:27-39 | The loop fills the array with the bytes in the other order. |
| `Endian.SliceToBe` | src/endian.rs:1-13 | The loop computes the value of the bytes in the other order. |
| `Utf8.CountIsLengthIffAscii` | scripts/compile_export_supervisor.py:85-86 | A string has as many characters as bytes exactly when it is ASCII. |
| `Utf8.ValidIffEncoded` | src/serial.rs:327-333 | Bytes are a string exactly when they encode a list of Unicode scalar values, of which there are as many as characters. |
| `Serial.VarIntRoundTrip` | src/serial.rs:239-298 | A variable-length integer is read back from its bytes, of which there are as many as its length function says. |
| `Serial.VarIntLayout` | src/serial.rs:239-264 | The forms byte by byte: one byte below 0xFD, else a mark and two, four or eight bytes, lowest first. |
| `Serial.OnlyMinimalVarInts` | src/serial.rs:266-298 | Reading succeeds exactly on the shortest form of a 64-bit number: every other form is refused. |
| `Serial.VecRoundTrip` | src/serial.rs:385-412 | A vector of elements that are read back is read back, and nothing after it is touched. |
| `Serial.BytesRoundTrip` | src/serial.rs:316-333 | Byte vectors and strings are read back. |
| `Serial.Reader.DecodeVarInt` | src/serial.rs:266-298 | Reads from the reader what the format says, with the same errors. |
| `Serial.Reader.DecodeString` | src/serial.rs:327-333 | Reads a length and that many bytes, and refuses what is not UTF-8. |
| `Serial.Writer.EncodeVarInt` | src/serial.rs:239-264 | Appends the bytes of the shortest form and returns their number. |
| `ContractFormat.OpRoundTrip` | src/vm_serial.rs:148-194 | Every operation with 32-bit indices is read back. |
| `ContractFormat.ConstraintRoundTrip` | src/vm_serial.rs:205-242 | Every constraint instruction with 32-bit indices is read back. |
| `ContractFormat.TwoRefsLayout` | src/vm_serial.rs:148-194 | The bytes of the five operations on two variables, with their numbers. |
| `ContractFormat.OneRefLayout` | src/vm_serial.rs:148-194 | The bytes of the three operations on one variable. |
| `ContractFormat.OtherLayout` | src/vm_serial.rs:148-194 | The bytes of the other operations. |
| `ContractFormat.ConstraintLayout` | src/vm_serial.rs:205-242 | The bytes of all constraint instructions, with their numbers. |
| `ContractFormat.LastPairKept` | src/vm_serial.rs:22-46 | Of several pairs with one name the map of parameters keeps the last. |
| `ContractFormat.OneNamePerIndex` | src/vm_serial.rs:22-46 | The map of public names never has two names for one index; the last pair is kept. |
| `ContractFormat.ScalarsRead` | src/bls_extensions.rs:46-60 | Constants are read back exactly when all are below the modulus; otherwise reading fails. |
| `ContractFormat.MapsOfNames` | scripts/compile_export_supervisor.py:168-192 | The two maps that the decoder collects hold exactly the parameters, and the public variables, with their indices; the one-to-one map loses nothing. |
| `ContractFormat.ExportThenDecode` | scripts/compile_export_supervisor.py:84-192 | Decoding the bytes of a contract gives that contract and stops at their end when its name is ASCII; with any other name the decoder returns a shorter name or fails. A constant that is not reduced is refused. |
| `ContractDecoder.DecodeOp` | src/vm_serial.rs:148-194 | Reads one operation from the shared reader, with the source's errors. |
| `ContractDecoder.DecodeConstraint` | src/vm_serial.rs:205-242 | Reads one constraint instruction from the shared reader. |
| `ContractDecoder.DecodeContract` | src/vm_serial.rs:22-46 | Reads all parts of a contract from the shared reader in the order of the format. |
| `ContractCanonical.OpReadIff` | src/vm_serial.rs:148-194 | Reading an operation succeeds exactly on its bytes: any other tag or kind is refused. |
| `ContractCanonical.ConstraintReadIff` | src/vm_serial.rs:205-242 | Reading a constraint instruction succeeds exactly on its bytes. |
| `ContractCanonical.ContractReadIff` | src/vm_serial.rs:22-46 | A contract is decoded exactly from the form of its parts, with any pairs of names that collect into its maps. |
| `ContractCanonical.WrongKinds` | src/vm_serial.rs:97-242 | The error for each kind of number that is out of its range; the program stops on a wrong allocation type. |
| `ContractCanonical.WrongValues` | src/serial.rs:266-298 | Numbers in a longer form than they need, constants that are not reduced and names that are no strings are refused. |
| `ContractFormat.AccentedNameFails` | scripts/compile_export_supervisor.py:85-86 | A contract whose name is one accented letter is written with length one, and reading it back fails. |
| `ContractExporter.ExportArgs` | scripts/compile_export_supervisor.py:138-145 | Writes the arguments in order; a constant is written with the kind of the reference before it, and raises when there is none. |
| `ContractExporter.ExportOp` | scripts/compile_export_supervisor.py:118-145 | Writes, for every operation, the bytes and leaves the kind that the specification gives, or raises when it gives none. |
| `ContractExporter.ExportContract` | scripts/compile_export_supervisor.py:84-192 | Writes, for every contract, the bytes that the specification gives, or raises when it gives none. |
| `ContractRoundTrip.LoweredIsWritten` | scripts/compile_export_supervisor.py:118-145 | An operation that has an instruction is written as the bytes of that instruction, whatever was written before it. |
| `ContractRoundTrip.LoadIntoConstantWritten` | scripts/compile_export_supervisor.py:138-145 | A load into constant i is written, and read back, as a load into the variable or local number i, by the kind of the reference before it; it raises when there is none. |
| `ContractRoundTrip.WrittenRightIffTargetNotConstant` | scripts/compile_export_supervisor.py:118-145 | The bytes of a compiled operation line are read back as an instruction that refers to what its symbols name exactly when it is not a load into a constant. |
| `ContractRoundTrip.ConstraintWrittenIffLowers` | scripts/compile_export_supervisor.py:150-166 | A compiled constraint is written exactly when its constants stand where constants belong and its numbers fit; otherwise the exporter raises. |
| `ContractRoundTrip.ExportIsContractBytes` | scripts/compile_export_supervisor.py:84-192 | What the exporter writes of a contract whose lines have instructions is the format's bytes of them. |
| `CompiledContract.CompiledIsExportable` | scripts/compile.py:358-370 | Everything that a contract with at most 2^32 lines and constants is compiled to fits its field of the format. |
| `CompiledContract.NamesAreDeclared` | scripts/compile_export_supervisor.py:168-192 | The two exported maps hold exactly what the `param` lines, and the `public` lines, of the source declare. |
| `CompiledContract.DecodedDoesAsSource` | src/vm_serial.rs:22-46 | Compiling, exporting and decoding a contract with an ASCII name gives one whose operations run as the source's lines do, whose constraints hold when the source's do, and whose maps hold the source's names. |
| `Lib.ParamOrderIrrelevant` | src/lib.rs:89-91 | The order in which the hash map of parameters is iterated over does not matter to the machine. |
| `Lib.PublicsAreNamed` | src/lib.rs:96-108 | Every public variable of a compiled contract has a name, so that a proof carries all public values. |
| `Lib.VerifierRebuildsInputs` | src/lib.rs:109-124 | Whatever order the public map of a proof is iterated in, the vector rebuilt from it is the list of inputs that the constraint generator allocated. |
| `Lib.ZkContract.SetParam` | src/lib.rs:71-79 | Sets the parameter of that name, or fails and sets nothing. |
| `Lib.ZkContract.Prove` | src/lib.rs:81-108 | Fails without all parameters; otherwise forgets them, runs the machine and returns the public values by name. |
| `Lib.ZkContract.PublicInputs` | src/lib.rs:109-124 | Looks the names up, sorts by index and drops the indices; no vector when a name is unknown. |
| `EndToEnd.SourceIsProved` | src/lib.rs:81-124 | A decoded contract that does what its source says: from any parameters `prove` ends with the error of the source's run, or shows the values of its public names, and the assignment that is allocated satisfies the generated constraints exactly when the source's constraints hold of its own values; `verify` rebuilds the allocated inputs from them. |
| `EndToEnd.CompiledIsProved` | src/lib.rs:81-124 | The same of the bytes of every compiled contract, after decoding. |
| `Wire.PacketReadIff` | src/net/messages.rs:170-229 | Reading succeeds exactly on the bytes of a packet, whose command may be empty: every packet has one form. |
| `Wire.PacketLayout` | src/net/messages.rs:170-229 | The bytes of a packet with short parts, the four of its mark included. |
| `Wire.NoPacket` | src/net/messages.rs:170-203 | The errors of bytes that do not start as a packet does, and of a command that is no string. |
| `Wire.EmptyCommandIsRead` | src/net/messages.rs:170-203 | A packet with an empty command is read. |
| `Wire.ResentIffCommandNotEmpty` | src/net/messages.rs:170-229 | Sending a packet that was read reproduces the bytes it was read from exactly when its command is not empty. |
| `Wire.PacketStream` | src/net/messages.rs:170-229 | Packets written one after the other are read back as the same packets, with nothing left over. |
| `Wire.Stream.DecodeAsync` | src/async_serial.rs:32-61 | Reads what the synchronous decoder reads, with the same errors. |
| `Wire.Stream.EncodeAsync` | src/async_serial.rs:8-30 | Writes what the synchronous encoder writes, and returns the same length. |
| `Wire.Stream.ReadPacket` | src/net/messages.rs:170-203 | Reads one packet from the stream, with the source's errors. |
| `Wire.Stream.SendPacket` | src/net/messages.rs:206-229 | Writes the bytes of one packet; with an empty command it stops after the length of the command. |
| `Curves.SignedVerifies` | src/crypto/schnorr.rs:17-26 | Every signature that the owner of the key makes is accepted, whatever the mask. |
| `Curves.ResponseUnique` | src/crypto/schnorr.rs:60-65 | For a given commitment and message at most one response is accepted. |
| `Curves.CommitAdds` | src/tx.rs:259-264 | Commitments add up: values with values, blinds with blinds. |
| `Transactions.UnsignedIsPartial` | src/tx.rs:251-257 | The bytes without signatures of a signed transaction are those of the partial transaction that was signed. |
| `Transactions.BalanceOpens` | src/tx.rs:271-287 | The sum of all commitments, outputs negative, commits to the differences of the sums of values and of blinds. |
| `Transactions.AcceptedConservesOrRelates` | src/tx.rs:266-308 | If a transaction is accepted, the sums of the committed values agree modulo the group order, or their openings express the value generator as a multiple of the randomness generator. |
| `Transactions.AcceptedConserves` | src/tx.rs:266-308 | With independent generators acceptance forces equal sums. |
| `TransactionBuilder.ComputeRemainderBlind` | src/tx.rs:28-48 | Adds the blinds going in and subtracts those going out. |
| `TransactionBuilder.BlindsCancel` | src/tx.rs:101-109 | With at least one output all blinds cancel. |
| `TransactionBuilder.Build` | src/tx.rs:50-177 | Builds the partial transaction, lets the last output take the remainder, and signs the partial bytes with every key; every field is stated from what the builder is given. |
| `TransactionBuilder.BuiltHasFields` | src/tx.rs:55-143 | The commitment, the proof and the encrypted note of an output carry one blind, the last output's the remainder; nullifier, root and key of an input are those of its note, path and secrets. |
| `TransactionBuilder.BuiltIsSigned` | src/tx.rs:148-171 | Every signature of a built transaction is accepted. |
| `TransactionBuilder.BuiltAcceptedIffBalanced` | src/tx.rs:50-308 | A built transaction with at least one output, whose proofs are accepted, is accepted exactly when, modulo the group order, as much goes out as came in. |
| `TransactionBuilder.NoOutputs` | src/tx.rs:101-109 | Without outputs, and if its proofs are accepted, it is accepted exactly when what came in, with its blinds, commits to the neutral point. |
| `TransactionVerifier.EncodeWithoutSignature` | src/tx.rs:251-257 | Appends the bytes without signatures and returns their number. |
| `TransactionVerifier.Verify` | src/tx.rs:266-308 | Answers yes exactly when every input and output has an accepted proof, every input of either kind a response that solves the equation of its key for the bytes of this transaction, and the commitments going in and out have the same sum. |
| `TransactionVerifier.AlteredClearRefused` | src/tx.rs:294-299 | With any other response in the signature of a clear input an accepted transaction is refused. |
| `TransactionVerifier.AlteredInputRefused` | src/tx.rs:300-305 | The same of the anonymous inputs. |
| `TransactionVerifier.SignedBytesBind` | src/tx.rs:251-257 | Two transactions have the same signed bytes exactly when they differ at most in their signatures. |
| `Quasiquote.QqIter` | lisp/lisp.rs:50-66 | The loop from the last element to the first builds the expansion of a sequence. |
| `Quasiquote.ConcatLoop` | lisp/core.rs:142-152 | The loop joins sequences, and fails at the first argument that is none. |
| `Quasiquote.FillForms` | lisp/lisp.rs:50-84 | Filling evaluates exactly what stands in a list of two after `unquote` or `splice-unquote`. |
| `Quasiquote.ExpansionFills` | lisp/lisp.rs:68-84 | Evaluating the expansion of a template fills it: the same value or error, and the same effects in the same order, as long as cons, concat, vec and quote mean what they did wherever a part of the expansion that uses them is reached. |
| `Quasiquote.QuasiquoteFills` | lisp/lisp.rs:230-233 | Evaluating a quasiquoted template fills it, under the same condition on the states that are reached. |
| `LispRoundTrip.UnescapeEscaped` | lisp/reader.rs:50-58 | Undoing the escapes of an escaped string gives the string. |
| `LispRoundTrip.StrReadBack` | lisp/printer.rs:24-32 | Every printed string or keyword is one token, which is read as that string. |
| `LispRoundTrip.IntReadBack` | lisp/reader.rs:71-72 | Every 64-bit integer is read back from its decimal text. |
| `LispRoundTrip.AssocFlat` | lisp/types.rs:444-474 | Entries with distinct keys are collected into the map that they were printed from. |
| `LispRoundTrip.ReadAfterPrint` | lisp/reader.rs:146-156 | Reading the readable text of a value of nil, booleans, integers, strings, one-token keywords and symbols, lists, vectors and maps gives that value. |
| `LispSyntax.ReadAsMeantIff` | lisp/reader.rs:32-144 | A text of values, reader marks, meta data, comments, white space and nested brackets is read as the forms that the marks stand for exactly when no `~` stands directly before an `@`. |
| `LispSyntax.ReadAsMeant` | lisp/reader.rs:32-144 | Then what follows the form is ignored. |
| `LispSyntax.MergedIsSameText` | lisp/reader.rs:32-48 | `~` and `@` together are the text of the mark for splicing. |
| `LispSyntax.BracesRead` | lisp/reader.rs:86-106 | Forms between braces are read as the map of what they mean. |
| `LispSyntax.HashMapIff` | lisp/types.rs:444-474 | They make a map exactly when they come in pairs and every key is a string, with the errors otherwise. |
| `LispSyntax.LastValueKept` | lisp/types.rs:444-474 | Of several values for one key the last is kept. |
| `LispSyntax.UnclosedFails` | lisp/reader.rs:86-106 | Without its closing bracket a list or vector is an error. |
| `LispSyntax.StrayCloses` | lisp/reader.rs:108-144 | So is a closing bracket at the start. |
| `LispSyntax.NothingMarked` | lisp/reader.rs:108-156 | So are a mark without a form and a text without any. |
| `LispSyntax.UnclosedString` | lisp/reader.rs:60-84 | So is a string without its closing quote. |
| `LispSyntax.HugeIntPanics` | lisp/reader.rs:71-72 | A number outside 64 bits stops the program. |
| `LispReader.Tokenize` | lisp/reader.rs:32-48 | The loop over the matches gives the tokens without comments. |
| `LispReader.Reader.ReadSeq` | lisp/reader.rs:86-106 | The loop reads forms up to the closing bracket and builds the value from them. |
| `LispReader.Reader.ReadForm` | lisp/reader.rs:108-144 | Reads one form and moves past it. |
| `LispReader.ReadStr` | lisp/reader.rs:146-156 | Reads the first form of a text. |

## Left out

- Splitting text into lines, commands and sections, and parsing constants, in `scripts/compile.py`: the model starts from lines of a command and symbols, and from constants in the order of their indices; a constant that is declared twice is not modelled.
- Which exception or message a failed compilation ends with: all of them are one failure, including those for a wrong number of arguments.
- `debug`, `dump_alloc` and `dump_local` print in the source; here they change nothing.
- Vm.ZkVirtualMachine.Initialize: when the source panics, nothing is said about the variables.
- Compiler.SymbolsToLcArgs: a constant argument is modelled by its index, not by the pair of index and text that the source stores.
- Groth16, the arithmetic of the curves, Pedersen and Blake2 hashes, and note encryption: library code, which enters as parameters with the laws that a proof needs.
- Transactions.AcceptedConserves: independence of generators is a hypothesis; in a cyclic group it can only hold computationally, which `Transactions.AcceptedConservesOrRelates` states without it.
- TransactionBuilder.Build: the partial transaction is encoded by its specification; the full encoder and all decoders of transactions are not modelled.
- TransactionBuilder.BuiltHasFields: the hashes that are revealed, the proofs and the encryption are functions of what they are given; the random scalar inside a proof or a ciphertext is not modelled.
- TransactionVerifier.SignedBytesBind: proofs of 192 bytes, hashes of 32 and notes of 152, as the library types have them, and points that their bytes tell apart.
- Transactions.BalanceOpens: that a verified proof's commitment has an opening is a hypothesis about the proof system.
- ContractExporter.ExportContract: after an exception nothing is said about what had been written; printing is left out.
- CompiledContract.DecodedDoesAsSource: the parsing of the texts of constants into numbers is not modelled, so that constants are given as reduced numbers.
- FreshLocals.AllRunFreshIffDistinctBeforeLast: assumes two further symbols, which the telling program uses.
- Serial.Reader.DecodeString: allocating memory for a length that is never read is not modelled, so that a huge length is an early end of input.
- Serial.Writer.EncodeVarInt: numbers of 64 bits are required, as the source's type has them; codecs of signed integers, booleans, addresses and tuples are not modelled.
- Endian.SliceToLe: joining disjoint bits with "or" is written as addition, and shifts as division by powers of 256.
- Wire.Stream.ReadPacket: one stream, no concurrency; messages inside packets are not modelled.
- Quasiquote.ExpansionFills: the evaluator is any function that satisfies the equations of one round of `eval` on the forms an expansion consists of, where cons, concat and vec are bound to the built-in functions; what the evaluator does on all other forms is left open, and evaluations that do not end are not modelled. Templates during whose filling one of these names is bound anew before it is needed again are outside the condition.
- LispRoundTrip.ReadAfterPrint: a map is the list of its entries in the order of iteration; metadata is left out.
- Floating resources such as depth of recursion, memory and time.
- `src/circuit`, the P2P sessions, the graphical, RPC and command-line programs, and the remaining Lisp forms for proofs.
- Linking the root of a spend proof to the wallet's tree: the two start from different leaves.
