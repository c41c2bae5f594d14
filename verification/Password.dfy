/** Password and passphrase generation (password.rs). The random source is a tape of 64-bit
    samples; a result of None means the tape ran out before the generator was done. */
module Password {
  import Bits
  import opened Common

  type u64 = x: int | 0 <= x < 0x1_0000_0000_0000_0000

  const U64_MAX := 0xffff_ffff_ffff_ffff

  // ---- A uniform index ----

  /** `u64::MAX - u64::MAX % bound` */
  function Limit(bound: nat): (limit: nat)
    requires 0 < bound <= U64_MAX
  {
    U64_MAX - U64_MAX % bound
  }

  /** The samples that are not thrown away. */
  function Kept(bound: nat, tape: seq<u64>): seq<u64>
    requires 0 < bound <= U64_MAX
  {
    if tape == [] then []
    else (if tape[0] < Limit(bound) then [tape[0]] else []) + Kept(bound, tape[1..])
  }

  method IndexBelow(bound: nat, tape: seq<u64>) returns (index: Option<nat>, rest: seq<u64>)
    requires 0 < bound <= U64_MAX
    ensures index.None? <==> Kept(bound, tape) == []
    ensures index.Some? ==> index.value == Kept(bound, tape)[0] % bound && index.value < bound
    ensures index.Some? ==> Kept(bound, rest) == Kept(bound, tape)[1..] && |rest| < |tape|
  {
    hide Limit;
    rest := tape;
    while rest != []
      invariant Kept(bound, rest) == Kept(bound, tape) && |rest| <= |tape|
      decreases |rest|
    {
      var sample := rest[0];
      rest := rest[1..];
      if sample < Limit(bound) {
        return Some(sample % bound), rest;
      }
    }
    index := None;
  }

  /** The first `m` runs of `bound` samples that fold to this residue. */
  ghost function Folded(m: nat, bound: nat, residue: nat): set<nat>
    requires residue < bound
  {
    if m == 0 then {} else Folded(m - 1, bound, residue) + {(m - 1) * bound + residue}
  }

  lemma {:induction false} FoldedSize(m: nat, bound: nat, residue: nat)
    requires residue < bound
    ensures |Folded(m, bound, residue)| == m
    ensures forall s: nat :: s in Folded(m, bound, residue) ==> s < m * bound
  {
    if m > 0 {
      FoldedSize(m - 1, bound, residue);
      assert m * bound == (m - 1) * bound + bound;
    }
  }

  lemma {:induction false} FoldedMembers(m: nat, bound: nat, residue: nat, s: nat)
    requires residue < bound
    ensures s in Folded(m, bound, residue) <==> s < m * bound && s % bound == residue
  {
    if m > 0 {
      FoldedMembers(m - 1, bound, residue, s);
      assert m * bound == (m - 1) * bound + bound;
      var base := (m - 1) * bound;
      if base <= s < base + bound {
        Bits.Commute(m - 1, bound);
        Bits.UniqueDivision(s, bound, m - 1, s - base);
      }
    }
  }

  /** How many kept samples stand behind each index. */
  function PerIndex(bound: nat): nat
    requires 0 < bound <= U64_MAX
  {
    U64_MAX / bound
  }

  lemma LimitIsMultiple(bound: nat)
    requires 0 < bound <= U64_MAX
    ensures Limit(bound) == PerIndex(bound) * bound && PerIndex(bound) >= 1
  {
    var q, r := U64_MAX / bound, U64_MAX % bound;
    assert U64_MAX == bound * q + r;
    if q < 1 {
      Bits.MulMonotone(bound, q, 0);
      assert false;
    }
  }

  /** The kept samples that give this index. */
  ghost function SamplesFor(bound: nat, index: nat): set<nat>
    requires index < bound <= U64_MAX
  {
    Folded(PerIndex(bound), bound, index)
  }

  /** Every index below the bound has exactly as many kept samples as any other. */
  lemma IndexIsUniform(bound: nat, index: nat)
    requires index < bound <= U64_MAX
    ensures forall s: nat :: s in SamplesFor(bound, index) <==> s < Limit(bound) && s % bound == index
    ensures |SamplesFor(bound, index)| == PerIndex(bound) >= 1
  {
    LimitIsMultiple(bound);
    FoldedSize(PerIndex(bound), bound, index);
    forall s: nat ensures s in SamplesFor(bound, index) <==> s < Limit(bound) && s % bound == index {
      FoldedMembers(PerIndex(bound), bound, index, s);
    }
  }

  /** More than half of all samples are kept. */
  lemma RejectionIsRare(bound: nat)
    requires 0 < bound <= U64_MAX
    ensures 2 * Limit(bound) > U64_MAX
  {
    LimitIsMultiple(bound);
    assert U64_MAX % bound < bound;
    Bits.MulMonotone(bound, 1, PerIndex(bound));
  }

  // ---- Policies ----

  const LOWERCASE := "abcdefghijklmnopqrstuvwxyz"
  const UPPERCASE := "ABCDEFGHIJKLMNOPQRSTUVWXYZ"
  const DIGITS := "0123456789"
  const SYMBOLS := "!#$%&()*+,-.:;<=>?@[]^_{|}~"

  const MIN_LENGTH := 8
  const MAX_LENGTH := 128

  datatype PolicyError =
    | NoCharacterClasses
    | LengthOutOfRange(min: nat, max: nat)
    | TooShortForClasses(classes: int, length: int)

  datatype Policy = Policy(length: nat, lowercase: bool, uppercase: bool, digits: bool, symbols: bool) {
    function Classes(): seq<string> {
      (if lowercase then [LOWERCASE] else []) + (if uppercase then [UPPERCASE] else [])
      + (if digits then [DIGITS] else []) + (if symbols then [SYMBOLS] else [])
    }

    function Check(): Result<seq<string>, PolicyError> {
      var classes := Classes();
      if classes == [] then Err(NoCharacterClasses)
      else if length < MIN_LENGTH || length > MAX_LENGTH then Err(LengthOutOfRange(MIN_LENGTH, MAX_LENGTH))
      else if length < |classes| then Err(TooShortForClasses(|classes|, length))
      else Ok(classes)
    }
  }

  /** Too many classes for the length is reported by code that no policy reaches. */
  lemma ClassesAlwaysFit(policy: Policy)
    ensures policy.Check().Err? ==> !policy.Check().error.TooShortForClasses?
    ensures policy.Check() == Err(NoCharacterClasses)
       <==> !policy.lowercase && !policy.uppercase && !policy.digits && !policy.symbols
    ensures policy.Check().Ok? <==>
      (policy.lowercase || policy.uppercase || policy.digits || policy.symbols)
      && 8 <= policy.length <= 128
    ensures policy.Check().Err? ==> policy.Check().error in {NoCharacterClasses, LengthOutOfRange(8, 128)}
  {
  }

  // ---- The alphabet has no repeats ----

  ghost predicate Rises(s: string) {
    forall i :: 0 <= i < |s| - 1 ==> s[i] < s[i + 1]
  }

  ghost predicate Distinct(s: string) {
    forall i, j :: 0 <= i < j < |s| ==> s[i] != s[j]
  }

  lemma {:induction false} RisesFrom(s: string, i: nat, j: nat)
    requires Rises(s) && i < j < |s|
    ensures s[i] < s[j]
    decreases j
  {
    if i < j - 1 {
      RisesFrom(s, i, j - 1);
    }
  }

  lemma RisingIsDistinct(s: string)
    requires Rises(s)
    ensures Distinct(s)
  {
    forall i, j | 0 <= i < j < |s| ensures s[i] != s[j] {
      RisesFrom(s, i, j);
    }
  }

  lemma LettersRise()
    ensures Rises(LOWERCASE) && |LOWERCASE| == 26
    ensures Rises(UPPERCASE) && |UPPERCASE| == 26
    ensures Rises(DIGITS) && |DIGITS| == 10
  {
  }

  lemma SymbolsRise()
    ensures Rises(SYMBOLS) && |SYMBOLS| == 27
  {
  }

  datatype Kind = Lower | Upper | Digit | Symbol

  function KindOf(c: char): Kind {
    if 'a' <= c <= 'z' then Lower else if 'A' <= c <= 'Z' then Upper else if '0' <= c <= '9' then Digit else Symbol
  }

  ghost predicate AllOf(s: string, kinds: set<Kind>) {
    forall i :: 0 <= i < |s| ==> KindOf(s[i]) in kinds
  }

  lemma LettersAreKinds()
    ensures AllOf(LOWERCASE, {Lower}) && AllOf(UPPERCASE, {Upper})
  {
  }

  lemma OthersAreKinds()
    ensures AllOf(DIGITS, {Digit}) && AllOf(SYMBOLS, {Symbol})
  {
  }

  lemma JoinDistinct(a: string, b: string, ka: set<Kind>, kb: set<Kind>)
    requires Distinct(a) && Distinct(b) && AllOf(a, ka) && AllOf(b, kb) && ka !! kb
    ensures Distinct(a + b) && AllOf(a + b, ka + kb)
  {
    hide KindOf;
    forall i, j | 0 <= i < j < |a + b| ensures (a + b)[i] != (a + b)[j] {
      if i < |a| <= j {
        assert KindOf(a[i]) in ka && KindOf(b[j - |a|]) in kb;
      }
    }
  }

  /** The alphabet of a policy. */
  function Alphabet(policy: Policy): string {
    Concat(policy.Classes())
  }

  function Part(on: bool, class_: string): string {
    if on then class_ else ""
  }

  lemma AlphabetParts(policy: Policy)
    ensures Alphabet(policy) == Part(policy.lowercase, LOWERCASE) + Part(policy.uppercase, UPPERCASE)
      + Part(policy.digits, DIGITS) + Part(policy.symbols, SYMBOLS)
  {
    hide Concat;
    OptionalJoin(policy.lowercase, LOWERCASE, []);
    var one := if policy.lowercase then [LOWERCASE] else [];
    OptionalJoin(policy.uppercase, UPPERCASE, one);
    var two := one + if policy.uppercase then [UPPERCASE] else [];
    OptionalJoin(policy.digits, DIGITS, two);
    var three := two + if policy.digits then [DIGITS] else [];
    OptionalJoin(policy.symbols, SYMBOLS, three);
    NoClasses(policy.lowercase, LOWERCASE);
    assert policy.Classes() == three + if policy.symbols then [SYMBOLS] else [];
  }

  lemma NoClasses(on: bool, class_: string)
    ensures Concat<char>([]) == [] && [] + Part(on, class_) == Part(on, class_)
    ensures [] + (if on then [class_] else []) == if on then [class_] else []
  {
  }

  lemma OptionalJoin(on: bool, class_: string, classes: seq<string>)
    ensures Concat(classes + if on then [class_] else []) == Concat(classes) + Part(on, class_)
  {
    if on {
      ConcatSnoc(classes, class_);
    } else {
      assert classes + [] == classes;
    }
  }

  lemma PartDistinct(on: bool, class_: string, kind: Kind)
    requires Rises(class_) && AllOf(class_, {kind})
    ensures Distinct(Part(on, class_)) && AllOf(Part(on, class_), {kind})
  {
    RisingIsDistinct(class_);
  }

  /** No character stands twice in an alphabet. */
  lemma AlphabetIsDistinct(policy: Policy)
    ensures Distinct(Alphabet(policy))
  {
    hide Rises, Distinct, AllOf, Part;
    AlphabetParts(policy);
    LettersRise();
    SymbolsRise();
    LettersAreKinds();
    OthersAreKinds();
    PartDistinct(policy.lowercase, LOWERCASE, Lower);
    PartDistinct(policy.uppercase, UPPERCASE, Upper);
    PartDistinct(policy.digits, DIGITS, Digit);
    PartDistinct(policy.symbols, SYMBOLS, Symbol);
    var two := Part(policy.lowercase, LOWERCASE) + Part(policy.uppercase, UPPERCASE);
    JoinDistinct(Part(policy.lowercase, LOWERCASE), Part(policy.uppercase, UPPERCASE), {Lower}, {Upper});
    JoinDistinct(two, Part(policy.digits, DIGITS), {Lower} + {Upper}, {Digit});
    JoinDistinct(two + Part(policy.digits, DIGITS), Part(policy.symbols, SYMBOLS),
                 {Lower} + {Upper} + {Digit}, {Symbol});
  }

  // ---- Passwords and index vectors ----

  ghost predicate Indices(alphabet: string, indices: seq<nat>) {
    forall i :: 0 <= i < |indices| ==> indices[i] < |alphabet|
  }

  function Spell(alphabet: string, indices: seq<nat>): (s: string)
    requires Indices(alphabet, indices)
    ensures |s| == |indices|
  {
    seq(|indices|, i requires 0 <= i < |indices| => alphabet[indices[i]])
  }

  predicate Covers(classes: seq<string>, candidate: string) {
    forall k :: 0 <= k < |classes| ==> exists i :: 0 <= i < |candidate| && candidate[i] in classes[k]
  }

  /** Each password comes from exactly one index vector. */
  lemma OneVectorPerPassword(policy: Policy, x: seq<nat>, y: seq<nat>)
    requires Indices(Alphabet(policy), x) && Indices(Alphabet(policy), y)
    requires Spell(Alphabet(policy), x) == Spell(Alphabet(policy), y)
    ensures x == y
  {
    hide Alphabet;
    AlphabetIsDistinct(policy);
    var alphabet := Alphabet(policy);
    forall i | 0 <= i < |x| ensures x[i] == y[i] {
      assert Spell(alphabet, x)[i] == alphabet[x[i]] && Spell(alphabet, y)[i] == alphabet[y[i]];
    }
  }

  /** A class of the policy has a character, and the alphabet has it at some index. */
  lemma {:induction false} ClassInAlphabet(classes: seq<string>, k: nat) returns (index: nat)
    requires k < |classes| && forall i :: 0 <= i < |classes| ==> classes[i] != ""
    ensures index < |Concat(classes)| && Concat(classes)[index] in classes[k]
  {
    if k == 0 {
      index := 0;
      assert Concat(classes)[0] == classes[0][0];
    } else {
      index := ClassInAlphabet(classes[1..], k - 1);
      index := index + |classes[0]|;
    }
  }

  lemma {:induction false} FirstOfEach(classes: seq<string>, n: nat) returns (indices: seq<nat>)
    requires n <= |classes| && forall i :: 0 <= i < |classes| ==> classes[i] != ""
    ensures |indices| == n && Indices(Concat(classes), indices)
    ensures forall k :: 0 <= k < n ==> Concat(classes)[indices[k]] in classes[k]
  {
    hide Concat;
    if n == 0 {
      indices := [];
    } else {
      indices := FirstOfEach(classes, n - 1);
      var index := ClassInAlphabet(classes, n - 1);
      indices := indices + [index];
    }
  }

  lemma PaddedCovers(classes: seq<string>, n: nat) returns (indices: seq<nat>)
    requires 0 < |classes| <= n && forall i :: 0 <= i < |classes| ==> classes[i] != ""
    ensures |indices| == n && Indices(Concat(classes), indices)
    ensures Covers(classes, Spell(Concat(classes), indices))
  {
    hide Concat;
    var firsts := FirstOfEach(classes, |classes|);
    indices := firsts + seq(n - |classes|, i => firsts[0]);
    var password := Spell(Concat(classes), indices);
    forall k | 0 <= k < |classes| ensures exists i :: 0 <= i < |password| && password[i] in classes[k] {
      assert password[k] == Concat(classes)[firsts[k]];
    }
  }

  lemma CheckedClasses(policy: Policy)
    requires policy.Check().Ok?
    ensures var classes := policy.Classes();
      0 < |classes| <= policy.length && forall i :: 0 <= i < |classes| ==> classes[i] != ""
  {
  }

  /** Any policy that passes the check has a password it accepts, so the redraw can end. */
  lemma SomePasswordPasses(policy: Policy) returns (indices: seq<nat>)
    requires policy.Check().Ok?
    ensures |indices| == policy.length && Indices(Alphabet(policy), indices)
    ensures Covers(policy.Classes(), Spell(Alphabet(policy), indices))
  {
    CheckedClasses(policy);
    indices := PaddedCovers(policy.Classes(), policy.length);
  }

  // ---- Generating ----

  /** What indices these kept samples give. */
  function Fold(bound: nat, samples: seq<u64>): (indices: seq<nat>)
    requires bound > 0
    ensures |indices| == |samples| && forall i :: 0 <= i < |indices| ==> indices[i] < bound
  {
    seq(|samples|, i requires 0 <= i < |samples| => samples[i] % bound)
  }

  /** The first block of `n` kept samples that spells a password with every class in it. */
  function FirstCovering(classes: seq<string>, alphabet: string, n: nat, kept: seq<u64>): Option<string>
    requires n > 0 && alphabet != ""
    decreases |kept|
  {
    if |kept| < n then None
    else
      var candidate := Spell(alphabet, Fold(|alphabet|, kept[..n]));
      if Covers(classes, candidate) then Some(candidate) else FirstCovering(classes, alphabet, n, kept[n..])
  }

  /** What generating from this tape gives; None while the tape is too short. */
  function Generated(policy: Policy, tape: seq<u64>): Result<Option<string>, PolicyError> {
    match policy.Check()
    case Err(error) => Err(error)
    case Ok(classes) =>
      AlphabetBounds(policy);
      var alphabet := Concat(classes);
      Ok(FirstCovering(classes, alphabet, policy.length, Kept(|alphabet|, tape)))
  }

  lemma AlphabetBounds(policy: Policy)
    requires policy.Check().Ok?
    ensures 0 < |Concat(policy.Classes())| <= 89
  {
    AlphabetParts(policy);
    LettersRise();
    SymbolsRise();
    hide Concat;
  }

  method Generate(policy: Policy, tape: seq<u64>) returns (password: Result<Option<string>, PolicyError>)
    ensures password == Generated(policy, tape)
  {
    hide Covers, Kept, Concat;
    var check := policy.Check();
    if check.Err? {
      return Err(check.error);
    }
    AlphabetBounds(policy);
    var classes, alphabet := check.value, Concat(check.value);
    hide FirstCovering;
    var rest := tape;
    while true
      invariant FirstCovering(classes, alphabet, policy.length, Kept(|alphabet|, rest))
        == FirstCovering(classes, alphabet, policy.length, Kept(|alphabet|, tape))
      decreases |rest|
    {
      ghost var kept := Kept(|alphabet|, rest);
      var candidate := "";
      label Drawing: var before := |rest|;
      for n := 0 to policy.length
        invariant n <= |kept| && Kept(|alphabet|, rest) == kept[n..]
        invariant candidate == Spell(alphabet, Fold(|alphabet|, kept[..n]))
        invariant |rest| + n <= before
      {
        var index;
        index, rest := IndexBelow(|alphabet|, rest);
        if index.None? {
          CoveringStep(classes, alphabet, policy.length, kept);
          return Ok(None);
        }
        assert kept[..n + 1] == kept[..n] + [kept[n]];
        candidate := candidate + [alphabet[index.value]];
      }
      CoveringStep(classes, alphabet, policy.length, kept);
      if Covers(classes, candidate) {
        return Ok(Some(candidate));
      }
    }
  }

  lemma CoveringStep(classes: seq<string>, alphabet: string, n: nat, kept: seq<u64>)
    requires n > 0 && alphabet != ""
    ensures FirstCovering(classes, alphabet, n, kept) ==
      if |kept| < n then None
      else
        var candidate := Spell(alphabet, Fold(|alphabet|, kept[..n]));
        if Covers(classes, candidate) then Some(candidate) else FirstCovering(classes, alphabet, n, kept[n..])
  {
    hide Covers, Spell, Fold;
  }

  /** Whatever is generated has the length asked for, only characters of the alphabet, and every
      class. */
  lemma {:induction false} GeneratedIsAcceptable(classes: seq<string>, alphabet: string, n: nat, kept: seq<u64>)
    requires n > 0 && alphabet != "" && FirstCovering(classes, alphabet, n, kept).Some?
    ensures var password := FirstCovering(classes, alphabet, n, kept).value;
      |password| == n && Covers(classes, password) && forall c :: c in password ==> c in alphabet
    decreases |kept|
  {
    hide Covers;
    var candidate := Spell(alphabet, Fold(|alphabet|, kept[..n]));
    if !Covers(classes, candidate) {
      GeneratedIsAcceptable(classes, alphabet, n, kept[n..]);
    }
  }

  // ---- Blocks of kept samples ----

  /** The blocks of kept samples that give these indices. */
  ghost function Blocks(bound: nat, indices: seq<nat>): set<seq<nat>>
    requires bound <= U64_MAX && forall i :: 0 <= i < |indices| ==> indices[i] < bound
  {
    if indices == [] then {[]}
    else
      var n := |indices| - 1;
      Appended(Blocks(bound, indices[..n]), SamplesFor(bound, indices[n]))
  }

  ghost function Appended(blocks: set<seq<nat>>, samples: set<nat>): set<seq<nat>> {
    set block, sample | block in blocks && sample in samples :: block + [sample]
  }

  lemma LastTells(a: seq<nat>, x: nat, b: seq<nat>, y: nat)
    requires a + [x] == b + [y]
    ensures a == b && x == y
  {
    assert |a + [x]| == |b + [y]|;
    assert (a + [x])[..|a|] == a && (b + [y])[..|b|] == b;
    assert (a + [x])[|a|] == x && (b + [y])[|b|] == y;
  }

  lemma AppendedMember(blocks: set<seq<nat>>, samples: set<nat>, block: seq<nat>, sample: nat)
    ensures block + [sample] in Appended(blocks, samples) <==> block in blocks && sample in samples
  {
    if block + [sample] in Appended(blocks, samples) {
      var b, s :| b in blocks && s in samples && block + [sample] == b + [s];
      LastTells(block, sample, b, s);
    }
  }

  lemma NoEmptyBlock(blocks: set<seq<nat>>, samples: set<nat>)
    ensures [] !in Appended(blocks, samples)
    ensures blocks == {} ==> Appended(blocks, samples) == {}
  {
  }

  lemma {:induction false} AppendedOne(block: seq<nat>, samples: set<nat>)
    ensures |Appended({block}, samples)| == |samples|
    decreases |samples|
  {
    if samples == {} {
      assert Appended({block}, samples) == {};
    } else {
      var s :| s in samples;
      AppendedOne(block, samples - {s});
      AppendedMember({block}, samples - {s}, block, s);
      assert Appended({block}, samples) == Appended({block}, samples - {s}) + {block + [s]};
    }
  }

  lemma {:induction false} AppendedSize(blocks: set<seq<nat>>, samples: set<nat>)
    ensures |Appended(blocks, samples)| == |blocks| * |samples|
    decreases |blocks|
  {
    hide Appended;
    if blocks == {} {
      NoEmptyBlock(blocks, samples);
    } else {
      var b :| b in blocks;
      var rest := blocks - {b};
      AppendedSize(rest, samples);
      AppendedOne(b, samples);
      AppendedSplits(rest, b, samples);
      assert rest + {b} == blocks;
      OneMore(|rest|, |samples|);
    }
  }

  lemma OneMore(m: nat, n: nat)
    ensures (m + 1) * n == m * n + n
  {
  }

  lemma AppendedSplits(rest: set<seq<nat>>, b: seq<nat>, samples: set<nat>)
    requires b !in rest
    ensures Appended(rest + {b}, samples) == Appended(rest, samples) + Appended({b}, samples)
    ensures Appended(rest, samples) !! Appended({b}, samples)
  {
    forall v | v in Appended({b}, samples) ensures v !in Appended(rest, samples) {
      var s :| s in samples && v == b + [s];
      AppendedMember(rest, samples, b, s);
    }
  }

  function Power(base: nat, n: nat): nat {
    if n == 0 then 1 else Power(base, n - 1) * base
  }

  lemma {:induction false} BlockMembers(bound: nat, indices: seq<nat>, block: seq<nat>)
    requires bound <= U64_MAX && forall i :: 0 <= i < |indices| ==> indices[i] < bound
    ensures block in Blocks(bound, indices) <==>
      |block| == |indices| && forall i :: 0 <= i < |block| ==> block[i] in SamplesFor(bound, indices[i])
  {
    hide SamplesFor;
    if indices == [] {
    } else if block == [] {
      NoEmptyBlock(Blocks(bound, indices[..|indices| - 1]), SamplesFor(bound, indices[|indices| - 1]));
    } else {
      var n, m := |indices| - 1, |block| - 1;
      assert block == block[..m] + [block[m]];
      AppendedMember(Blocks(bound, indices[..n]), SamplesFor(bound, indices[n]), block[..m], block[m]);
      BlockMembers(bound, indices[..n], block[..m]);
    }
  }

  lemma {:induction false} BlockCount(bound: nat, indices: seq<nat>)
    requires bound <= U64_MAX && forall i :: 0 <= i < |indices| ==> indices[i] < bound
    requires bound > 0
    ensures |Blocks(bound, indices)| == Power(PerIndex(bound), |indices|)
  {
    if indices != [] {
      var n := |indices| - 1;
      BlockCount(bound, indices[..n]);
      IndexIsUniform(bound, indices[n]);
      AppendedSize(Blocks(bound, indices[..n]), SamplesFor(bound, indices[n]));
    }
  }

  lemma BlocksFold(bound: nat, indices: seq<nat>, block: seq<u64>)
    requires 0 < bound <= U64_MAX && |indices| == |block|
    requires forall i :: 0 <= i < |indices| ==> indices[i] < bound
    requires forall i :: 0 <= i < |block| ==> block[i] < Limit(bound)
    ensures block in Blocks(bound, indices) <==> Fold(bound, block) == indices
  {
    hide Blocks, SamplesFor, Limit;
    BlockMembers(bound, indices, block);
    forall i | 0 <= i < |indices|
      ensures block[i] in SamplesFor(bound, indices[i]) <==> Fold(bound, block)[i] == indices[i]
    {
      IndexIsUniform(bound, indices[i]);
    }
  }

  /** Any two index vectors of a length, and so any two acceptable passwords, stand for equally
      many blocks of kept samples; a block gives a vector exactly when its samples fold to it. */
  lemma PasswordsAreUniform(bound: nat, x: seq<nat>, y: seq<nat>, block: seq<u64>)
    requires 0 < bound <= U64_MAX && |x| == |y| == |block|
    requires forall i :: 0 <= i < |x| ==> x[i] < bound && y[i] < bound
    requires forall i :: 0 <= i < |block| ==> block[i] < Limit(bound)
    ensures |Blocks(bound, x)| == |Blocks(bound, y)| == Power(PerIndex(bound), |x|)
    ensures block in Blocks(bound, x) <==> Fold(bound, block) == x
  {
    hide Blocks, SamplesFor, Limit, Fold, Power, PerIndex;
    BlockCount(bound, x);
    BlockCount(bound, y);
    BlocksFold(bound, x, block);
  }

  // ---- Passphrases ----

  const WORD_COUNT := 7776
  const LONGEST_WORD := 9

  /** The words at these indices, with the separator between them. */
  function Phrase(words: seq<string>, indices: seq<nat>, separator: string): string
    requires forall i :: 0 <= i < |indices| ==> indices[i] < |words|
  {
    if indices == [] then ""
    else
      var n := |indices| - 1;
      Phrase(words, indices[..n], separator) + (if n != 0 then separator else "") + words[indices[n]]
  }

  /** What the buffer reserves: `saturating_sub` stops at zero. */
  function Capacity(count: nat, separator: string): nat {
    count * LONGEST_WORD + (if count == 0 then 0 else count - 1) * |separator|
  }

  lemma CapacityStep(count: nat, separator: string)
    ensures Capacity(count + 1, separator)
      == Capacity(count, separator) + (if count != 0 then |separator| else 0) + LONGEST_WORD
  {
    if count != 0 {
      assert count * |separator| == (count - 1) * |separator| + |separator|;
    }
  }

  /** A passphrase never outgrows what was reserved for it, and fills it exactly when every word
      is a longest one. */
  lemma {:induction false} PhraseFits(words: seq<string>, indices: seq<nat>, separator: string)
    requires forall i :: 0 <= i < |indices| ==> indices[i] < |words|
    requires forall i :: 0 <= i < |words| ==> |words[i]| <= 9
    ensures |Phrase(words, indices, separator)| <= Capacity(|indices|, separator)
    ensures |Phrase(words, indices, separator)| == Capacity(|indices|, separator)
      <==> forall i :: 0 <= i < |indices| ==> |words[indices[i]]| == 9
  {
    hide Capacity;
    if indices == [] {
      EmptyCapacity(separator);
    } else {
      var n := |indices| - 1;
      PhraseFits(words, indices[..n], separator);
      CapacityStep(n, separator);
    }
  }

  lemma EmptyCapacity(separator: string)
    ensures Capacity(0, separator) == 0
  {
  }

  method GeneratePassphrase(words: seq<string>, count: nat, separator: string, tape: seq<u64>)
    returns (passphrase: Option<string>)
    requires |words| == WORD_COUNT
    ensures passphrase.None? <==> |Kept(7776, tape)| < count
    ensures passphrase.Some? ==>
      passphrase.value == Phrase(words, Fold(7776, Kept(7776, tape)[..count]), separator)
  {
    hide Kept;
    ghost var kept := Kept(WORD_COUNT, tape);
    var text, rest := "", tape;
    for position := 0 to count
      invariant position <= |kept| && Kept(WORD_COUNT, rest) == kept[position..]
      invariant text == Phrase(words, Fold(WORD_COUNT, kept[..position]), separator)
    {
      var index;
      index, rest := IndexBelow(WORD_COUNT, rest);
      if index.None? {
        return None;
      }
      ghost var indices := Fold(WORD_COUNT, kept[..position + 1]);
      assert indices[..position] == Fold(WORD_COUNT, kept[..position]);
      if position != 0 {
        text := text + separator;
      }
      text := text + words[index.value];
    }
    passphrase := Some(text);
  }
}
