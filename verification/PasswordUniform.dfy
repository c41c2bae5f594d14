/** Every acceptable password is as likely as every other: over tapes of any one length, the redraw
    and the rejection included, equally many make the generator return any two of them. */
module PasswordUniform {
  import Bits
  import opened Common
  import opened Password

  // ---- One sample, moved to another index ----

  /** The sample of the same turn of the residues that folds to `index`. */
  function Moved(bound: nat, sample: u64, index: nat): (r: u64)
    requires 0 < bound <= U64_MAX && sample < Limit(bound) && index < bound
    ensures r < Limit(bound) && r % bound == index
  {
    MovedFits(bound, sample, index);
    sample - sample % bound + index
  }

  lemma TurnBelow(bound: nat, q: nat, r: nat, turns: nat, index: nat)
    requires bound * q + r < bound * turns && index < bound
    ensures bound * q + index < bound * turns
  {
    if q >= turns {
      Bits.MulMonotone(bound, turns, q);
      assert false;
    }
    Bits.MulMonotone(bound, q + 1, turns);
    Bits.Distribute(bound, q, 1);
  }

  lemma MovedFits(bound: nat, sample: nat, index: nat)
    requires 0 < bound <= U64_MAX && sample < Limit(bound) && index < bound
    ensures 0 <= sample - sample % bound + index < Limit(bound)
    ensures (sample - sample % bound + index) % bound == index
  {
    hide Limit, PerIndex;
    var q := sample / bound;
    LimitIsMultiple(bound);
    Bits.Commute(PerIndex(bound), bound);
    Bits.DivMod(sample, bound);
    Bits.DivideShrinks(sample, bound);
    TurnBelow(bound, q, sample % bound, PerIndex(bound), index);
    Bits.UniqueDivision(bound * q + index, bound, q, index);
  }

  lemma MovedBack(bound: nat, sample: u64, index: nat)
    requires 0 < bound <= U64_MAX && sample < Limit(bound) && index < bound
    ensures sample % bound < bound && Moved(bound, Moved(bound, sample, index), sample % bound) == sample
  {
    MovedFits(bound, sample, index);
  }

  // ---- One block of kept samples, moved to another password ----

  ghost predicate AllIndices(bound: nat, indices: seq<nat>) {
    forall i :: 0 <= i < |indices| ==> indices[i] < bound
  }

  ghost predicate AllKept(bound: nat, samples: seq<u64>)
    requires 0 < bound <= U64_MAX
  {
    forall i :: 0 <= i < |samples| ==> samples[i] < Limit(bound)
  }

  lemma {:induction false} KeptAreKept(bound: nat, tape: seq<u64>)
    requires 0 < bound <= U64_MAX
    ensures AllKept(bound, Kept(bound, tape))
  {
    hide Limit;
    if tape != [] {
      KeptAreKept(bound, tape[1..]);
    }
  }

  /** The kept samples from `skip` on, as many as there are indices, moved to those. */
  function Reblocked(bound: nat, kept: seq<u64>, skip: nat, indices: seq<nat>): (r: seq<u64>)
    requires 0 < bound <= U64_MAX && AllIndices(bound, indices) && AllKept(bound, kept)
    ensures |r| == |kept|
  {
    seq(|kept|, i requires 0 <= i < |kept| =>
      if skip <= i < skip + |indices| then Moved(bound, kept[i], indices[i - skip]) else kept[i])
  }

  /** The same on the tape, where samples that are thrown away stand in between. */
  function Redrawn(bound: nat, tape: seq<u64>, skip: nat, indices: seq<nat>): (r: seq<u64>)
    requires 0 < bound <= U64_MAX && AllIndices(bound, indices)
    ensures |r| == |tape|
    decreases |tape|
  {
    if tape == [] || indices == [] then tape
    else if tape[0] >= Limit(bound) then [tape[0]] + Redrawn(bound, tape[1..], skip, indices)
    else if skip > 0 then [tape[0]] + Redrawn(bound, tape[1..], skip - 1, indices)
    else [Moved(bound, tape[0], indices[0])] + Redrawn(bound, tape[1..], 0, indices[1..])
  }

  lemma ReblockedStep(bound: nat, first: u64, rest: seq<u64>, skip: nat, indices: seq<nat>)
    requires 0 < bound <= U64_MAX && AllIndices(bound, indices) && AllKept(bound, rest) && first < Limit(bound)
    ensures AllKept(bound, [first] + rest)
    ensures skip > 0 ==>
      Reblocked(bound, [first] + rest, skip, indices) == [first] + Reblocked(bound, rest, skip - 1, indices)
    ensures indices != [] ==>
      Reblocked(bound, [first] + rest, 0, indices)
        == [Moved(bound, first, indices[0])] + Reblocked(bound, rest, 0, indices[1..])
    ensures Reblocked(bound, rest, skip, []) == rest
  {
    hide Limit, Moved;
    if indices != [] {
      var whole, tail := Reblocked(bound, [first] + rest, 0, indices), Reblocked(bound, rest, 0, indices[1..]);
      forall i | 0 <= i < |rest| ensures whole[i + 1] == tail[i] {
        assert ([first] + rest)[i + 1] == rest[i];
      }
      assert whole == [whole[0]] + tail;
    }
  }

  lemma {:induction false} RedrawnKept(bound: nat, tape: seq<u64>, skip: nat, indices: seq<nat>)
    requires 0 < bound <= U64_MAX && AllIndices(bound, indices)
    ensures AllKept(bound, Kept(bound, tape))
    ensures Kept(bound, Redrawn(bound, tape, skip, indices)) == Reblocked(bound, Kept(bound, tape), skip, indices)
    decreases |tape|
  {
    hide Limit, Moved, Reblocked, AllKept;
    KeptAreKept(bound, tape);
    if tape == [] || indices == [] {
      ReblockedNothing(bound, Kept(bound, tape), skip, indices);
    } else {
      var rest := Kept(bound, tape[1..]);
      KeptAreKept(bound, tape[1..]);
      if tape[0] >= Limit(bound) {
        RedrawnKept(bound, tape[1..], skip, indices);
        assert [] + rest == rest;
      } else {
        ReblockedStep(bound, tape[0], rest, skip, indices);
        if skip > 0 {
          RedrawnKept(bound, tape[1..], skip - 1, indices);
        } else {
          RedrawnKept(bound, tape[1..], 0, indices[1..]);
        }
      }
    }
  }

  lemma ReblockedNothing(bound: nat, kept: seq<u64>, skip: nat, indices: seq<nat>)
    requires 0 < bound <= U64_MAX && AllIndices(bound, indices) && AllKept(bound, kept)
    requires kept == [] || indices == []
    ensures Reblocked(bound, kept, skip, indices) == kept
  {
  }

  /** Moving a block back to what it was gives the tape it came from. */
  lemma {:induction false} RedrawnBack(bound: nat, tape: seq<u64>, skip: nat, indices: seq<nat>, back: seq<nat>)
    requires 0 < bound <= U64_MAX && AllIndices(bound, indices) && AllIndices(bound, back)
    requires |back| == |indices| && skip + |indices| <= |Kept(bound, tape)|
    requires back == Fold(bound, Kept(bound, tape)[skip..skip + |indices|])
    ensures Redrawn(bound, Redrawn(bound, tape, skip, indices), skip, back) == tape
    decreases |tape|
  {
    hide Limit, Moved;
    if tape != [] && indices != [] {
      var kept, rest := Kept(bound, tape), Kept(bound, tape[1..]);
      if tape[0] >= Limit(bound) {
        assert kept == rest;
        RedrawnBack(bound, tape[1..], skip, indices, back);
      } else if skip > 0 {
        assert rest[skip - 1..skip - 1 + |indices|] == kept[skip..skip + |indices|];
        RedrawnBack(bound, tape[1..], skip - 1, indices, back);
      } else {
        MovedBack(bound, tape[0], indices[0]);
        assert kept[0] == tape[0] && back[0] == tape[0] % bound;
        assert rest[0..|indices| - 1] == kept[0..|indices|][1..];
        assert back[1..] == Fold(bound, rest[0..0 + |indices[1..]|]);
        RedrawnBack(bound, tape[1..], 0, indices[1..], back[1..]);
      }
    }
  }

  // ---- Where the accepted block stands ----

  /** How many kept samples come before the block that spells the first covering password. */
  function Accepting(classes: seq<string>, alphabet: string, n: nat, kept: seq<u64>): nat
    requires n > 0 && alphabet != ""
    decreases |kept|
  {
    if |kept| < n || Covers(classes, Spell(alphabet, Fold(|alphabet|, kept[..n]))) then 0
    else n + Accepting(classes, alphabet, n, kept[n..])
  }

  lemma {:induction false} AcceptedBlock(classes: seq<string>, alphabet: string, n: nat, kept: seq<u64>)
    requires n > 0 && alphabet != "" && FirstCovering(classes, alphabet, n, kept).Some?
    ensures var at := Accepting(classes, alphabet, n, kept);
      && at + n <= |kept|
      && FirstCovering(classes, alphabet, n, kept).value == Spell(alphabet, Fold(|alphabet|, kept[at..at + n]))
    decreases |kept|
  {
    hide Covers, Spell, Fold;
    var candidate := Spell(alphabet, Fold(|alphabet|, kept[..n]));
    if Covers(classes, candidate) {
      assert kept[0..0 + n] == kept[..n];
    } else {
      AcceptedBlock(classes, alphabet, n, kept[n..]);
      var at := Accepting(classes, alphabet, n, kept[n..]);
      assert kept[n..][at..at + n] == kept[n + at..n + at + n];
    }
  }

  lemma ReblockedHead(bound: nat, kept: seq<u64>, indices: seq<nat>)
    requires 0 < bound <= U64_MAX && AllIndices(bound, indices) && AllKept(bound, kept) && |indices| <= |kept|
    ensures Fold(bound, Reblocked(bound, kept, 0, indices)[..|indices|]) == indices
  {
    hide Limit;
  }

  lemma ReblockedTail(bound: nat, kept: seq<u64>, n: nat, skip: nat, indices: seq<nat>)
    requires 0 < bound <= U64_MAX && AllIndices(bound, indices) && AllKept(bound, kept) && n <= |kept|
    ensures AllKept(bound, kept[n..])
    ensures Reblocked(bound, kept, n + skip, indices)[..n] == kept[..n]
    ensures Reblocked(bound, kept, n + skip, indices)[n..] == Reblocked(bound, kept[n..], skip, indices)
  {
    hide Limit, Moved;
  }

  /** Moving the accepted block to another covering password makes that one the first: the blocks
      before it are untouched, so they are still not covering. */
  lemma {:induction false} ReblockedIsAccepted(classes: seq<string>, alphabet: string, n: nat, kept: seq<u64>,
                                               indices: seq<nat>)
    requires n > 0 && 0 < |alphabet| <= U64_MAX && AllKept(|alphabet|, kept)
    requires |indices| == n && AllIndices(|alphabet|, indices) && Covers(classes, Spell(alphabet, indices))
    requires FirstCovering(classes, alphabet, n, kept).Some?
    ensures var at := Accepting(classes, alphabet, n, kept);
      var moved := Reblocked(|alphabet|, kept, at, indices);
      && Accepting(classes, alphabet, n, moved) == at
      && FirstCovering(classes, alphabet, n, moved) == Some(Spell(alphabet, indices))
    decreases |kept|
  {
    hide Covers, Spell, Fold, Reblocked, AllKept, AllIndices, Limit;
    var at := Accepting(classes, alphabet, n, kept);
    if Covers(classes, Spell(alphabet, Fold(|alphabet|, kept[..n]))) {
      ReblockedHead(|alphabet|, kept, indices);
    } else {
      ReblockedTail(|alphabet|, kept, n, at - n, indices);
      ReblockedIsAccepted(classes, alphabet, n, kept[n..], indices);
    }
  }

  // ---- Counting tapes ----

  predicate IsSample(s: u64) {
    s <= U64_MAX
  }

  ghost function Samples(): set<u64> {
    set s: u64 | 0 <= s <= U64_MAX && IsSample(s)
  }

  /** All tapes of one length. */
  ghost function Tapes(length: nat): set<seq<u64>> {
    if length == 0 then {[]}
    else set tape, sample | tape in Tapes(length - 1) && sample in Samples() :: tape + [sample]
  }

  lemma {:induction false} TapesAreAll(length: nat, tape: seq<u64>)
    ensures tape in Tapes(length) <==> |tape| == length
    decreases length
  {
    if length > 0 && tape != [] {
      var n := |tape| - 1;
      TapesAreAll(length - 1, tape[..n]);
      assert IsSample(tape[n]) && tape == tape[..n] + [tape[n]] && tape[n] in Samples();
      if tape in Tapes(length) {
        var t, s :| t in Tapes(length - 1) && s in Samples() && tape == t + [s];
        assert t == tape[..n];
      }
    }
  }

  /** The tapes of this length that make the generator return this password. */
  ghost function TapesFor(policy: Policy, length: nat, password: string): set<seq<u64>> {
    set tape | tape in Tapes(length) && Generated(policy, tape) == Ok(Some(password))
  }

  lemma {:induction false} InjectionBounds<A, B>(f: A -> B, from: set<A>, to: set<B>)
    requires forall a :: a in from ==> f(a) in to
    requires forall a, b :: a in from && b in from && f(a) == f(b) ==> a == b
    ensures |from| <= |to|
    decreases |from|
  {
    if from != {} {
      var a :| a in from;
      InjectionBounds(f, from - {a}, to - {f(a)});
    }
  }

  predicate Wants(policy: Policy, kind: Kind) {
    match kind
    case Lower => policy.lowercase
    case Upper => policy.uppercase
    case Digit => policy.digits
    case Symbol => policy.symbols
  }

  /** The symbols are the printable ASCII characters but for letters, digits and five more. */
  predicate Belongs(c: char, kind: Kind) {
    match kind
    case Lower => 'a' <= c <= 'z'
    case Upper => 'A' <= c <= 'Z'
    case Digit => '0' <= c <= '9'
    case Symbol =>
      && '!' <= c <= '~' && !('a' <= c <= 'z') && !('A' <= c <= 'Z') && !('0' <= c <= '9')
      && c != '"' && c != '\'' && c != '/' && c != '\\' && c != '`'
  }

  ghost predicate Offered(policy: Policy, c: char) {
    exists kind :: Wants(policy, kind) && Belongs(c, kind)
  }

  /** What the generator may return: as many characters as asked for, each of a kind that is wanted,
      and one of every kind that is wanted. */
  ghost predicate Acceptable(policy: Policy, password: string) {
    && |password| == policy.length
    && (forall c :: c in password ==> Offered(policy, c))
    && (forall kind :: Wants(policy, kind) ==> exists i :: 0 <= i < |password| && Belongs(password[i], kind))
  }

  function ClassOf(kind: Kind): string {
    match kind
    case Lower => LOWERCASE
    case Upper => UPPERCASE
    case Digit => DIGITS
    case Symbol => SYMBOLS
  }

  /** Where characters rise by no more than one each, none is passed over. */
  lemma {:induction false} RunHas(s: string, first: nat, last: nat, c: char)
    requires Rises(s) && first <= last < |s| && s[last] as int - s[first] as int == last - first
    requires s[first] <= c <= s[last]
    ensures c in s
    decreases last
  {
    if first == last {
      assert s[last] == c;
    } else if c < s[last] {
      RisesBy(s, first, last - 1);
      assert s[last - 1] < s[last];
      RunHas(s, first, last - 1, c);
    }
  }

  lemma {:induction false} RisesBy(s: string, first: nat, last: nat)
    requires Rises(s) && first <= last < |s|
    ensures s[last] as int >= s[first] as int + last - first
    decreases last
  {
    if first < last {
      assert s[last - 1] < s[last];
      RisesBy(s, first, last - 1);
    }
  }

  ghost predicate AllBelong(s: string, kind: Kind) {
    forall i :: 0 <= i < |s| ==> Belongs(s[i], kind)
  }

  lemma LettersBelong()
    ensures AllBelong(LOWERCASE, Lower) && AllBelong(UPPERCASE, Upper)
  {
  }

  lemma OthersBelong()
    ensures AllBelong(DIGITS, Digit) && AllBelong(SYMBOLS, Symbol)
  {
  }

  lemma LettersAre(c: char)
    ensures c in LOWERCASE <==> Belongs(c, Lower)
    ensures c in UPPERCASE <==> Belongs(c, Upper)
  {
    LettersBelong();
    LettersRise();
    hide Rises;
    if 'a' <= c <= 'z' {
      RunHas(LOWERCASE, 0, 25, c);
    }
    if 'A' <= c <= 'Z' {
      RunHas(UPPERCASE, 0, 25, c);
    }
  }

  lemma OthersAre(c: char)
    ensures c in DIGITS <==> Belongs(c, Digit)
    ensures c in SYMBOLS <==> Belongs(c, Symbol)
  {
    OthersBelong();
    LettersRise();
    SymbolsRise();
    hide Rises;
    if '0' <= c <= '9' {
      RunHas(DIGITS, 0, 9, c);
    }
    if Belongs(c, Symbol) {
      if c == '!' {
        RunHas(SYMBOLS, 0, 0, c);
      } else if c <= '&' {
        RunHas(SYMBOLS, 1, 4, c);
      } else if c <= '.' {
        RunHas(SYMBOLS, 5, 11, c);
      } else if c <= '@' {
        RunHas(SYMBOLS, 12, 18, c);
      } else if c == '[' {
        RunHas(SYMBOLS, 19, 19, c);
      } else if c <= '_' {
        RunHas(SYMBOLS, 20, 22, c);
      } else {
        RunHas(SYMBOLS, 23, 26, c);
      }
    }
  }

  lemma ClassHas(c: char, kind: Kind)
    ensures c in ClassOf(kind) <==> Belongs(c, kind)
  {
    LettersAre(c);
    OthersAre(c);
    hide Belongs;
  }

  lemma WantedClass(policy: Policy, kind: Kind)
    requires Wants(policy, kind)
    ensures ClassOf(kind) in policy.Classes()
  {
    var one := if policy.lowercase then [LOWERCASE] else [];
    var two := one + if policy.uppercase then [UPPERCASE] else [];
    var three := two + if policy.digits then [DIGITS] else [];
    assert policy.Classes() == three + if policy.symbols then [SYMBOLS] else [];
  }

  lemma ClassWanted(policy: Policy, k: nat) returns (kind: Kind)
    requires k < |policy.Classes()|
    ensures Wants(policy, kind) && policy.Classes()[k] == ClassOf(kind)
  {
    var one := if policy.lowercase then [LOWERCASE] else [];
    var two := one + if policy.uppercase then [UPPERCASE] else [];
    var three := two + if policy.digits then [DIGITS] else [];
    assert policy.Classes() == three + if policy.symbols then [SYMBOLS] else [];
    kind := if k < |one| then Lower else if k < |two| then Upper else if k < |three| then Digit else Symbol;
  }

  lemma CoversIff(policy: Policy, password: string)
    ensures Covers(policy.Classes(), password)
       <==> forall kind :: Wants(policy, kind) ==> exists i :: 0 <= i < |password| && Belongs(password[i], kind)
  {
    hide Wants, Belongs, ClassOf;
    if Covers(policy.Classes(), password) {
      forall kind | Wants(policy, kind) ensures exists i :: 0 <= i < |password| && Belongs(password[i], kind) {
        WantedClass(policy, kind);
        var k :| 0 <= k < |policy.Classes()| && policy.Classes()[k] == ClassOf(kind);
        var i :| 0 <= i < |password| && password[i] in policy.Classes()[k];
        ClassHas(password[i], kind);
      }
    }
    if forall kind :: Wants(policy, kind) ==> exists i :: 0 <= i < |password| && Belongs(password[i], kind) {
      forall k | 0 <= k < |policy.Classes()|
        ensures exists i :: 0 <= i < |password| && password[i] in policy.Classes()[k]
      {
        var kind := ClassWanted(policy, k);
        var i :| 0 <= i < |password| && Belongs(password[i], kind);
        ClassHas(password[i], kind);
      }
    }
  }

  lemma AlphabetIff(policy: Policy, c: char)
    ensures c in Alphabet(policy) <==> Offered(policy, c)
  {
    hide Alphabet, Belongs, Offered, Part;
    AlphabetParts(policy);
    LettersAre(c);
    OthersAre(c);
    PartHas(policy.lowercase, LOWERCASE, c);
    PartHas(policy.uppercase, UPPERCASE, c);
    PartHas(policy.digits, DIGITS, c);
    PartHas(policy.symbols, SYMBOLS, c);
    OfferedIff(policy, c);
  }

  lemma PartHas(on: bool, class_: string, c: char)
    ensures c in Part(on, class_) <==> on && c in class_
  {
  }

  lemma OfferedIff(policy: Policy, c: char)
    ensures Offered(policy, c) <==>
      || (policy.lowercase && Belongs(c, Lower)) || (policy.uppercase && Belongs(c, Upper))
      || (policy.digits && Belongs(c, Digit)) || (policy.symbols && Belongs(c, Symbol))
  {
    hide Belongs;
    assert Wants(policy, Lower) == policy.lowercase && Wants(policy, Upper) == policy.uppercase;
    assert Wants(policy, Digit) == policy.digits && Wants(policy, Symbol) == policy.symbols;
    if Offered(policy, c) {
      var kind :| Wants(policy, kind) && Belongs(c, kind);
      match kind {
        case Lower =>
        case Upper =>
        case Digit =>
        case Symbol =>
      }
    }
  }

  lemma AcceptableIff(policy: Policy, password: string)
    ensures Acceptable(policy, password)
       <==> |password| == policy.length && (forall c :: c in password ==> c in Alphabet(policy))
            && Covers(policy.Classes(), password)
  {
    hide Alphabet, Belongs, Wants, Covers, Offered;
    CoversIff(policy, password);
    forall c ensures c in Alphabet(policy) <==> Offered(policy, c) {
      AlphabetIff(policy, c);
    }
  }

  lemma {:induction false} IndicesOf(alphabet: string, password: string) returns (indices: seq<nat>)
    requires forall c :: c in password ==> c in alphabet
    ensures Indices(alphabet, indices) && Spell(alphabet, indices) == password
  {
    if password == "" {
      indices := [];
    } else {
      indices := IndicesOf(alphabet, password[1..]);
      assert password[0] in alphabet;
      var i :| 0 <= i < |alphabet| && alphabet[i] == password[0];
      indices := [i] + indices;
      assert Spell(alphabet, indices) == [password[0]] + Spell(alphabet, indices[1..]);
    }
  }

  /** The generator, once its policy has passed the check. */
  lemma GeneratedIs(policy: Policy, tape: seq<u64>)
    requires policy.Check().Ok?
    ensures policy.length > 0 && 0 < |Alphabet(policy)| <= U64_MAX
    ensures Generated(policy, tape) == Ok(FirstCovering(policy.Classes(), Alphabet(policy), policy.length,
                                                        Kept(|Alphabet(policy)|, tape)))
  {
    hide Concat, Kept, FirstCovering;
    AlphabetBounds(policy);
  }

  ghost predicate Spells(policy: Policy, indices: seq<nat>) {
    && policy.Check().Ok? && |indices| == policy.length
    && Indices(Alphabet(policy), indices)
    && Covers(policy.Classes(), Spell(Alphabet(policy), indices))
  }

  /** The tape with its accepted block moved to these indices. */
  ghost function Redirected(policy: Policy, indices: seq<nat>, tape: seq<u64>): seq<u64>
    requires Spells(policy, indices)
  {
    GeneratedIs(policy, tape);
    var alphabet := Alphabet(policy);
    var at := Accepting(policy.Classes(), alphabet, policy.length, Kept(|alphabet|, tape));
    Redrawn(|alphabet|, tape, at, indices)
  }

  lemma RedirectedGenerates(policy: Policy, indices: seq<nat>, tape: seq<u64>, at: nat)
    requires Spells(policy, indices) && |Alphabet(policy)| > 0
    requires Generated(policy, tape).Ok? && Generated(policy, tape).value.Some?
    requires |Alphabet(policy)| <= U64_MAX
    requires at == Accepting(policy.Classes(), Alphabet(policy), policy.length, Kept(|Alphabet(policy)|, tape))
    ensures var moved := Redirected(policy, indices, tape);
      && |moved| == |tape| && Generated(policy, moved) == Ok(Some(Spell(Alphabet(policy), indices)))
      && Accepting(policy.Classes(), Alphabet(policy), policy.length, Kept(|Alphabet(policy)|, moved)) == at
  {
    hide Generated, Kept, FirstCovering, Accepting, Covers, Spell, Limit, Alphabet, Redrawn, Reblocked, AllKept;
    var moved := Redirected(policy, indices, tape);
    var alphabet := Alphabet(policy);
    GeneratedIs(policy, tape);
    GeneratedIs(policy, moved);
    RedrawnKept(|alphabet|, tape, at, indices);
    ReblockedIsAccepted(policy.Classes(), alphabet, policy.length, Kept(|alphabet|, tape), indices);
  }

  /** Two tapes that give one password are never moved to the same tape. */
  lemma RedirectedComesBack(policy: Policy, indices: seq<nat>, back: seq<nat>, tape: seq<u64>)
    requires Spells(policy, indices) && Spells(policy, back)
    requires Generated(policy, tape) == Ok(Some(Spell(Alphabet(policy), back)))
    ensures Redirected(policy, back, Redirected(policy, indices, tape)) == tape
  {
    hide Generated, Kept, FirstCovering, Accepting, Covers, Spell, Limit, Alphabet, Redrawn, Fold;
    var alphabet, n := Alphabet(policy), policy.length;
    GeneratedIs(policy, tape);
    var kept := Kept(|alphabet|, tape);
    var at := Accepting(policy.Classes(), alphabet, n, kept);
    RedirectedGenerates(policy, indices, tape, at);
    AcceptedBlock(policy.Classes(), alphabet, n, kept);
    OneVectorPerPassword(policy, Fold(|alphabet|, kept[at..at + n]), back);
    RedrawnBack(|alphabet|, tape, at, indices, back);
  }

  lemma AtMostAsMany(policy: Policy, length: nat, from: seq<nat>, to: seq<nat>)
    requires Spells(policy, from) && Spells(policy, to)
    ensures |TapesFor(policy, length, Spell(Alphabet(policy), from))|
         <= |TapesFor(policy, length, Spell(Alphabet(policy), to))|
  {
    hide Generated, Spell, Alphabet, Redirected, Covers, Tapes, Accepting, Kept;
    var alphabet := Alphabet(policy);
    var p, q := Spell(alphabet, from), Spell(alphabet, to);
    var move := (tape: seq<u64>) => Redirected(policy, to, tape);
    forall tape | tape in TapesFor(policy, length, p)
      ensures move(tape) in TapesFor(policy, length, q) && Redirected(policy, from, move(tape)) == tape
    {
      TapesAreAll(length, tape);
      GeneratedIs(policy, tape);
      var at := Accepting(policy.Classes(), alphabet, policy.length, Kept(|alphabet|, tape));
      RedirectedGenerates(policy, to, tape, at);
      TapesAreAll(length, move(tape));
      RedirectedComesBack(policy, to, from, tape);
    }
    InjectionBounds(move, TapesFor(policy, length, p), TapesFor(policy, length, q));
  }

  /** Over the tapes of any one length, with every rejected sample and every redrawn candidate in
      them, equally many make the generator return any two acceptable passwords. */
  lemma {:induction false} GeneratedIsUniform(policy: Policy, length: nat, p: string, q: string)
    requires policy.Check().Ok? && Acceptable(policy, p) && Acceptable(policy, q)
    ensures |TapesFor(policy, length, p)| == |TapesFor(policy, length, q)|
  {
    hide Generated, Alphabet, TapesFor, Covers, Acceptable;
    AcceptableIff(policy, p);
    AcceptableIff(policy, q);
    var x := IndicesOf(Alphabet(policy), p);
    var y := IndicesOf(Alphabet(policy), q);
    AtMostAsMany(policy, length, x, y);
    AtMostAsMany(policy, length, y, x);
  }

  /** Nothing but acceptable passwords comes out. */
  lemma {:induction false} OnlyAcceptable(policy: Policy, length: nat, password: string)
    requires TapesFor(policy, length, password) != {}
    ensures policy.Check().Ok? && Acceptable(policy, password)
  {
    hide Covers, Kept, FirstCovering, Alphabet, Acceptable;
    AcceptableIff(policy, password);
    var tape :| tape in TapesFor(policy, length, password);
    GeneratedIs(policy, tape);
    GeneratedIsAcceptable(policy.Classes(), Alphabet(policy), policy.length, Kept(|Alphabet(policy)|, tape));
  }
}
