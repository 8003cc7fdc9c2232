/**
 * The option shuffler: `shuffleArray` (App.tsx:10-17), a Fisher–Yates
 * shuffle run on a copy of its input, and `shuffledOptionsMap`
 * (App.tsx:126-140), which shuffles every question's option entries once.
 *
 * `Math.random()` is replaced by the indices it would have produced: for the
 * loop step at position i the caller supplies `choices[i]`, the value of
 * `Math.floor(Math.random() * (i + 1))`, so `choices[i] <= i`.
 */
module Shuffle {
  import opened Types

  /** The random indices a shuffle of n elements may draw. */
  predicate ValidChoices(choices: seq<nat>, n: nat) {
    |choices| == n && forall i :: 0 <= i < n ==> choices[i] <= i
  }

  /** The destructuring swap `[a[i], a[j]] = [a[j], a[i]]` (App.tsx:14). */
  function Swap<T>(s: seq<T>, i: nat, j: nat): (r: seq<T>)
    requires i < |s| && j < |s|
    ensures |r| == |s| && r[i] == s[j] && r[j] == s[i]
    ensures forall k :: 0 <= k < |s| && k != i && k != j ==> r[k] == s[k]
    ensures multiset(r) == multiset(s)
  {
    s[i := s[j]][j := s[i]]
  }

  /**
   * The loop steps i, i-1, ..., 1 of the descending loop (App.tsx:12-15)
   * applied to s; nothing when i <= 0.
   */
  function FisherYates<T>(s: seq<T>, choices: seq<nat>, i: int): (r: seq<T>)
    requires i < |s| && ValidChoices(choices, |s|)
    ensures |r| == |s| && multiset(r) == multiset(s)
    decreases i
  {
    if i <= 0 then s else FisherYates(Swap(s, i, choices[i]), choices, i - 1)
  }

  /** What `shuffleArray(s)` returns when `Math.random` draws `choices`. */
  function Shuffled<T>(s: seq<T>, choices: seq<nat>): (r: seq<T>)
    requires ValidChoices(choices, |s|)
  {
    FisherYates(s, choices, |s| - 1)
  }

  /**
   * Whatever indices are drawn, the result is a permutation of the input
   * (same length, same multiset), and inputs of at most one element come back
   * unchanged.
   */
  lemma ShuffledIsPermutation<T>(s: seq<T>, choices: seq<nat>)
    requires ValidChoices(choices, |s|)
    ensures |Shuffled(s, choices)| == |s|
    ensures multiset(Shuffled(s, choices)) == multiset(s)
    ensures |s| <= 1 ==> Shuffled(s, choices) == s
  {
  }

  /**
   * `shuffleArray`: copy the input into a fresh array, then swap from the last
   * position down to position 1. The input is a value and is left as it was.
   */
  method ShuffleArray<T>(input: seq<T>, choices: seq<nat>) returns (r: seq<T>)
    requires ValidChoices(choices, |input|)
    ensures r == Shuffled(input, choices)
    ensures multiset(r) == multiset(input)
  {
    var a := new T[|input|](k requires 0 <= k < |input| => input[k]);
    assert a[..] == input;
    ghost var target := Shuffled(input, choices);
    var i := a.Length - 1;
    while i > 0
      invariant i < a.Length
      invariant FisherYates(a[..], choices, i) == target
    {
      var j := choices[i];
      ghost var before := a[..];
      assert FisherYates(before, choices, i) == FisherYates(Swap(before, i, j), choices, i - 1);
      a[i], a[j] := a[j], a[i];
      assert a[..] == Swap(before, i, j);
      i := i - 1;
    }
    ShuffledIsPermutation(input, choices);
    r := a[..];
  }

  /** The option entries of a question, or none when `options` is not an object. */
  function EntriesOf(q: Question): seq<OptionEntry> {
    match q.options
    case Entries(e) => e
    case NotAnObject => []
  }

  /** One sequence of random indices per question of the bank, in bank order. */
  predicate ChoicesFor(bank: seq<Question>, choices: seq<seq<nat>>) {
    |choices| == |bank| &&
    forall k :: 0 <= k < |bank| ==> ValidChoices(choices[k], |EntriesOf(bank[k])|)
  }

  /** The entry App.tsx:131-136 stores for one question. */
  function ShuffledEntries(q: Question, choices: seq<nat>): seq<OptionEntry>
    requires ValidChoices(choices, |EntriesOf(q)|)
  {
    match q.options
    case Entries(e) => Shuffled(e, choices)
    case NotAnObject => []
  }

  /** The ids of the questions of the bank. */
  function Ids(bank: seq<Question>): set<string> {
    set k | 0 <= k < |bank| :: bank[k].id
  }

  lemma IdsSnoc(bank: seq<Question>)
    requires bank != []
    ensures Ids(bank) == Ids(bank[..|bank| - 1]) + {bank[|bank| - 1].id}
  {
    var n := |bank| - 1;
    forall x | x in Ids(bank) ensures x in Ids(bank[..n]) + {bank[n].id} {
      var k :| 0 <= k < |bank| && bank[k].id == x;
      if k < n { assert bank[..n][k] == bank[k]; }
    }
    forall x | x in Ids(bank[..n]) ensures x in Ids(bank) {
      var k :| 0 <= k < n && bank[..n][k].id == x;
      assert bank[k].id == x;
    }
  }

  /**
   * `shuffledOptionsMap` as a function of the bank: questions are visited in
   * order and a later question with the same id overwrites an earlier one.
   */
  function ShuffledOptionsMap(bank: seq<Question>, choices: seq<seq<nat>>): (m: map<string, seq<OptionEntry>>)
    requires ChoicesFor(bank, choices)
    ensures m.Keys == Ids(bank)
    decreases |bank|
  {
    if bank == [] then map[]
    else
      var n := |bank| - 1;
      IdsSnoc(bank);
      ShuffledOptionsMap(bank[..n], choices[..n])[bank[n].id := ShuffledEntries(bank[n], choices[n])]
  }

  /**
   * Every question's cached entry (the entry of the last question carrying
   * that id) holds exactly that question's option entries, each once: no
   * option is lost or duplicated by the shuffle.
   */
  lemma {:induction false} ShuffledOptionsArePermutations(bank: seq<Question>, choices: seq<seq<nat>>, k: nat)
    requires ChoicesFor(bank, choices) && k < |bank|
    requires forall k' :: k < k' < |bank| ==> bank[k'].id != bank[k].id
    ensures bank[k].id in ShuffledOptionsMap(bank, choices)
    ensures multiset(ShuffledOptionsMap(bank, choices)[bank[k].id]) == multiset(EntriesOf(bank[k]))
    decreases |bank|
  {
    var n := |bank| - 1;
    var prefix := ShuffledOptionsMap(bank[..n], choices[..n]);
    var m := ShuffledOptionsMap(bank, choices);
    assert m == prefix[bank[n].id := ShuffledEntries(bank[n], choices[n])];
    if k == n {
      ShuffledIsPermutation(EntriesOf(bank[k]), choices[k]);
    } else {
      assert bank[..n][k] == bank[k];
      ShuffledOptionsArePermutations(bank[..n], choices[..n], k);
      assert m[bank[k].id] == prefix[bank[k].id];
    }
  }

  /**
   * `shuffledOptionsMap`: one `forEach` over the bank, storing each
   * question's shuffled entries under its id.
   */
  method BuildShuffledOptionsMap(bank: seq<Question>, choices: seq<seq<nat>>) returns (m: map<string, seq<OptionEntry>>)
    requires ChoicesFor(bank, choices)
    ensures m == ShuffledOptionsMap(bank, choices)
    ensures m.Keys == Ids(bank)
  {
    m := map[];
    for i := 0 to |bank|
      invariant m == ShuffledOptionsMap(bank[..i], choices[..i])
    {
      var q := bank[i];
      var entries: seq<OptionEntry>;
      if q.options.Entries? {
        entries := ShuffleArray(q.options.entries, choices[i]);
      } else {
        entries := [];
      }
      assert bank[..i + 1][..i] == bank[..i];
      assert choices[..i + 1][..i] == choices[..i];
      m := m[q.id := entries];
    }
    assert bank[..|bank|] == bank;
    assert choices[..|bank|] == choices;
  }
}
