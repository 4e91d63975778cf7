/** Mutation points and the names they give to generated functions and trampolines. */
module MutationPoints {
  import opened IR
  import opened Wrappers

  /** A test as the mutant runner sees it: a driver function and its arguments. */
  datatype Test = Test(name: string, driver: string, args: seq<Value>)

  const TRAMPOLINE_SUFFIX := "_trampoline"
  const ORIGINAL_SUFFIX := "_original"

  function TrampolineName(function_: string, bitcode: string): string {
    function_ + "_" + bitcode + TRAMPOLINE_SUFFIX
  }

  function OriginalName(function_: string, bitcode: string): string {
    function_ + "_" + bitcode + ORIGINAL_SUFFIX
  }

  /** How the run time gets from a trampoline to the function it starts out pointing to. A name
      shorter than the suffix makes the unsigned length wrap around, and substr keeps it whole. */
  function OriginalOfTrampoline(name: string): string {
    (if |name| < |TRAMPOLINE_SUFFIX| then name else name[..|name| - |TRAMPOLINE_SUFFIX|]) + ORIGINAL_SUFFIX
  }

  /** The name derived at run time is the one given to the clone at compile time. */
  lemma OriginalOfTrampolineName(f: string, bitcode: string)
    ensures OriginalOfTrampoline(TrampolineName(f, bitcode)) == OriginalName(f, bitcode)
  {
    var stem := f + "_" + bitcode;
    assert TrampolineName(f, bitcode)[..|stem|] == stem;
  }

  /** The suffix is exchanged, whatever is before it; a name too short to have it keeps all it has. */
  lemma SuffixExchanged(stem: string)
    ensures OriginalOfTrampoline(stem + "_trampoline") == stem + "_original"
    ensures |stem| < |"_trampoline"| ==> OriginalOfTrampoline(stem) == stem + "_original"
  {
    assert (stem + "_trampoline")[..|stem|] == stem;
  }

  /** Distinct functions of one bitcode have distinct trampolines and distinct originals. */
  lemma NamesInjective(f: string, g: string, bitcode: string)
    ensures TrampolineName(f, bitcode) == TrampolineName(g, bitcode) ==> f == g
    ensures OriginalName(f, bitcode) == OriginalName(g, bitcode) ==> f == g
  {
    if TrampolineName(f, bitcode) == TrampolineName(g, bitcode) {
      assert f == TrampolineName(f, bitcode)[..|f|] == TrampolineName(g, bitcode)[..|g|] == g;
    }
    if OriginalName(f, bitcode) == OriginalName(g, bitcode) {
      assert f == OriginalName(f, bitcode)[..|f|] == OriginalName(g, bitcode)[..|g|] == g;
    }
  }

  // ---- Names across bitcodes ------------------------------------------------------------------

  /** The length of a hexadecimal MD5 digest. */
  const DIGEST_LENGTH := 32

  /** A loaded bitcode is identified by the stem of its file's name and the digest of its content. */
  function BitcodeIdentifier(stem: string, digest: string): string {
    stem + "_" + digest
  }

  predicate IsBitcodeIdentifier(bitcode: string) {
    |bitcode| > DIGEST_LENGTH && bitcode[|bitcode| - DIGEST_LENGTH - 1] == '_'
  }

  function Stem(bitcode: string): string
    requires IsBitcodeIdentifier(bitcode)
  {
    bitcode[..|bitcode| - DIGEST_LENGTH - 1]
  }

  function Digest(bitcode: string): string
    requires IsBitcodeIdentifier(bitcode)
  {
    bitcode[|bitcode| - DIGEST_LENGTH..]
  }

  lemma StemAndDigest(bitcode: string)
    requires IsBitcodeIdentifier(bitcode)
    ensures bitcode == BitcodeIdentifier(Stem(bitcode), Digest(bitcode)) && |Digest(bitcode)| == DIGEST_LENGTH
  {
  }

  predicate EndsWith(s: string, end: string) {
    |end| <= |s| && s[|s| - |end|..] == end
  }

  /** Functions share their trampoline if and only if their bitcodes share the digest and what comes before
      it is the same. */
  lemma SharedTrampoline(f: string, stem: string, digest: string, g: string, stem': string, digest': string)
    requires |digest| == |digest'|
    ensures TrampolineName(f, BitcodeIdentifier(stem, digest)) == TrampolineName(g, BitcodeIdentifier(stem', digest'))
       <==> digest == digest' && f + "_" + stem == g + "_" + stem'
  {
    var head, head' := f + "_" + stem, g + "_" + stem';
    var name := TrampolineName(f, BitcodeIdentifier(stem, digest));
    var name' := TrampolineName(g, BitcodeIdentifier(stem', digest'));
    assert name == head + "_" + digest + TRAMPOLINE_SUFFIX;
    assert name' == head' + "_" + digest' + TRAMPOLINE_SUFFIX;
    if name == name' {
      assert head == name[..|head|] == name'[..|head'|] == head';
      assert digest == name[|head| + 1..|head| + 1 + |digest|] == digest';
    }
  }

  /** Two bitcodes can define distinct functions with one trampoline, if and only if they have one digest and
      one stem is the other with something and an underscore before it. */
  lemma {:induction false} TrampolinesClash(stem: string, digest: string, stem': string, digest': string)
    requires |digest| == |digest'|
    ensures (exists f, g :: f != g && TrampolineName(f, BitcodeIdentifier(stem, digest))
                                   == TrampolineName(g, BitcodeIdentifier(stem', digest')))
       <==> digest == digest' && (EndsWith(stem, "_" + stem') || EndsWith(stem', "_" + stem))
  {
    if f, g :| f != g && TrampolineName(f, BitcodeIdentifier(stem, digest))
                      == TrampolineName(g, BitcodeIdentifier(stem', digest'))
    {
      SharedTrampoline(f, stem, digest, g, stem', digest');
      if |f| < |g| {
        LongerStem(f, stem, g, stem');
      } else {
        LongerStem(g, stem', f, stem);
      }
    }
    if digest == digest' && EndsWith(stem, "_" + stem') {
      ClashOfLonger(stem, stem', digest);
    }
    if digest == digest' && EndsWith(stem', "_" + stem) {
      ClashOfLonger(stem', stem, digest);
    }
  }

  lemma LongerStem(f: string, stem: string, g: string, stem': string)
    requires f != g && f + "_" + stem == g + "_" + stem' && |f| <= |g|
    ensures EndsWith(stem, "_" + stem')
  {
    var name := f + "_" + stem;
    assert f == name[..|f|] && g == name[..|g|] && stem == name[|f| + 1..];
    assert "_" + stem' == name[|g|..] == stem[|g| - |f| - 1..];
  }

  lemma ClashOfLonger(stem: string, stem': string, digest: string)
    requires EndsWith(stem, "_" + stem')
    ensures var (f, g) := ("f", "f_" + stem[..|stem| - |stem'| - 1]);
      && f != g
      && TrampolineName(f, BitcodeIdentifier(stem, digest)) == TrampolineName(g, BitcodeIdentifier(stem', digest))
  {
    var more := stem[..|stem| - |stem'| - 1];
    assert stem == more + ("_" + stem');
    SharedTrampoline("f", stem, digest, "f_" + more, stem', digest);
  }

  /** `mutator` stands for the mutator applied at the point's address, whatever it rewrites. */
  class MutationPoint {
    const bitcode: string
    const originalFunction: string
    const uniqueIdentifier: string
    const mutator: Function -> Function
    var mutatedFunction: Option<string>
    var reachableTests: seq<(Test, int)>

    constructor (bitcode: string, originalFunction: string, uniqueIdentifier: string, mutator: Function -> Function)
      ensures this.bitcode == bitcode && this.originalFunction == originalFunction
      ensures this.uniqueIdentifier == uniqueIdentifier && this.mutator == mutator
      ensures mutatedFunction == None && reachableTests == []
    {
      this.bitcode := bitcode;
      this.originalFunction := originalFunction;
      this.uniqueIdentifier := uniqueIdentifier;
      this.mutator := mutator;
      mutatedFunction := None;
      reachableTests := [];
    }

    method AddReachableTest(test: Test, distance: int)
      modifies this`reachableTests
      ensures reachableTests == old(reachableTests) + [(test, distance)]
    {
      reachableTests := reachableTests + [(test, distance)];
    }

    /** The clone is renamed to the point's identifier and remembered. */
    method SetMutatedFunction(name: string)
      requires name == uniqueIdentifier
      modifies this`mutatedFunction
      ensures mutatedFunction == Some(name)
    {
      mutatedFunction := Some(name);
    }
  }

  /** Every mutant of a function under test is to be run against all tests that reach the function. */
  method AttachTests(mutants: seq<MutationPoint>, reachableTests: seq<(Test, int)>)
    requires forall j, k :: 0 <= j < k < |mutants| ==> mutants[j] != mutants[k]
    modifies mutants`reachableTests
    ensures forall k :: 0 <= k < |mutants| ==>
      mutants[k].reachableTests == old(mutants[k].reachableTests) + reachableTests
  {
    for k := 0 to |mutants|
      invariant forall j :: 0 <= j < k ==>
        mutants[j].reachableTests == old(mutants[j].reachableTests) + reachableTests
      invariant forall j :: k <= j < |mutants| ==> mutants[j].reachableTests == old(mutants[j].reachableTests)
    {
      var mutant := mutants[k];
      for i := 0 to |reachableTests|
        invariant mutant.reachableTests == old(mutant.reachableTests) + reachableTests[..i]
        invariant forall j :: 0 <= j < k ==>
          mutants[j].reachableTests == old(mutants[j].reachableTests) + reachableTests
        invariant forall j :: k < j < |mutants| ==> mutants[j].reachableTests == old(mutants[j].reachableTests)
      {
        var (test, distance) := reachableTests[i];
        mutant.AddReachableTest(test, distance);
        assert reachableTests[..i + 1] == reachableTests[..i] + [reachableTests[i]];
      }
      assert reachableTests[..|reachableTests|] == reachableTests;
    }
  }
}
