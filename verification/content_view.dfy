/** The two pure rules of the task list screen: the in-memory search filter
    over the fetched tasks, and the plural form of the task-count label. */
module ContentView {
  import opened TaskModel
  import Sequences
  import Persistence

  // ----- search filter -----

  /** Lower-case folding, restricted to ASCII letters. */
  function LowerChar(c: char): char {
    if 'A' <= c <= 'Z' then (c as int + 32) as char else c
  }

  /** Lower-cases ASCII letters and leaves every other character alone. */
  function Lowercased(text: string): (r: string)
    ensures |r| == |text|
    ensures forall i :: 0 <= i < |r| ==> !('A' <= r[i] <= 'Z')
    ensures forall i :: 0 <= i < |text| && !('A' <= text[i] <= 'Z') ==> r[i] == text[i]
    ensures forall i :: 0 <= i < |text| && 'A' <= text[i] <= 'Z' ==>
      'a' <= r[i] <= 'z' && r[i] as int - 'a' as int == text[i] as int - 'A' as int
  {
    seq(|text|, i requires 0 <= i < |text| => LowerChar(text[i]))
  }

  /** Whether a fetched task is listed under the search query: every task
      when the query is empty, otherwise those whose lower-cased title
      contains the lower-cased query. */
  predicate Shown(query: string, t: Task) {
    query == "" || (t.title.Some? && Sequences.Contains(Lowercased(t.title.value), Lowercased(query)))
  }

  /** The rows of the list: the fetched tasks that pass the search filter,
      in fetched order. */
  function Displayed(fetched: seq<Task>, query: string): (r: seq<Task>)
    ensures query == "" ==> r == fetched
    ensures forall t :: t in r ==> t in fetched
    ensures query != "" ==> forall t :: t in r ==> t.title.Some?
    ensures Sequences.IsSubsequence(r, fetched)
  {
    var r := Sequences.Filter(fetched, (t: Task) => Shown(query, t));
    Sequences.FilterIsSubsequence(fetched, (t: Task) => Shown(query, t));
    if query == "" then
      Sequences.FilterKeepsAll(fetched, (t: Task) => Shown(query, t));
      r
    else r
  }

  /** With a non-empty query, a fetched task is listed exactly when its
      lower-cased title holds the lower-cased query at some position. */
  lemma DisplayedIffTitleHoldsQuery(fetched: seq<Task>, query: string, t: Task)
    requires query != ""
    ensures t in Displayed(fetched, query) <==>
      && t in fetched
      && t.title.Some?
      && exists i :: Sequences.OccursAt(Lowercased(t.title.value), Lowercased(query), i)
  {
    if t.title.Some? {
      Sequences.ContainsIffOccurs(Lowercased(t.title.value), Lowercased(query));
    }
  }

  /** Filtering the listed rows again with the same query changes nothing. */
  lemma DisplayedIdempotent(fetched: seq<Task>, query: string)
    ensures Displayed(Displayed(fetched, query), query) == Displayed(fetched, query)
  {
    Sequences.FilterIdempotent(fetched, (t: Task) => Shown(query, t));
  }

  /** Whatever newest-first order the fetch returns, ties included, the
      listed rows keep it. */
  lemma DisplayedNewestFirst(fetched: seq<Task>, query: string)
    requires Persistence.SortedByCreatedDesc(fetched)
    ensures Persistence.SortedByCreatedDesc(Displayed(fetched, query))
  {
    Sequences.SubsequenceKeepsOrder(Displayed(fetched, query), fetched, (a: Task, b: Task) => a.createdDate >= b.createdDate);
  }

  lemma LowercasedIdempotent(text: string)
    ensures Lowercased(Lowercased(text)) == Lowercased(text)
  {
  }

  /** The filter ignores the case of the query. */
  lemma QueryCaseIrrelevant(fetched: seq<Task>, query: string)
    ensures Displayed(fetched, Lowercased(query)) == Displayed(fetched, query)
  {
    LowercasedIdempotent(query);
    Sequences.FilterAgrees(fetched, (t: Task) => Shown(Lowercased(query), t), (t: Task) => Shown(query, t));
  }

  // ----- task-count label -----

  /** The three plural forms the label is localised in. */
  datatype PluralForm = One | Few | Many

  /** The form the label selects for `count` tasks, branch by branch as the
      view does. */
  function CountForm(count: nat): PluralForm {
    if count == 1 then One
    else if count % 10 == 1 && count % 100 != 11 then One
    else if 2 <= count % 10 <= 4 && !(10 <= count % 100 <= 20) then Few
    else Many
  }

  /** The localisation key of each form. */
  function CountKey(form: PluralForm): string {
    match form
    case One => "task.count.one"
    case Few => "task.count.few"
    case Many => "task.count.many"
  }

  /** The key of the label shown for `count` tasks: exactly one of the
      three, chosen by the CLDR category of the count. */
  function CountLabelKey(count: nat): (key: string)
    ensures key == "task.count.one" <==> CldrOne(count)
    ensures key == "task.count.few" <==> CldrFew(count)
    ensures key == "task.count.many" <==> CldrMany(count)
  {
    CountFormIsCldr(count);
    CountKey(CountForm(count))
  }

  // The Russian integer rules of the Unicode CLDR plural rules
  // (UTS #35, Part 3 Numbers, "Language Plural Rules").

  predicate CldrOne(n: nat) {
    n % 10 == 1 && n % 100 != 11
  }

  predicate CldrFew(n: nat) {
    2 <= n % 10 <= 4 && !(12 <= n % 100 <= 14)
  }

  predicate CldrMany(n: nat) {
    n % 10 == 0 || 5 <= n % 10 <= 9 || 11 <= n % 100 <= 14
  }

  lemma LastDigitOfLastTwo(n: nat)
    ensures (n % 100) % 10 == n % 10
  {
    var q := n / 100;
    var r := n % 100;
    assert n == 100 * q + r;
    assert n == 10 * (10 * q + r / 10) + r % 10;
  }

  /** The CLDR rules split the counts: each count is in exactly one
      category. */
  lemma CldrCategoriesPartition(n: nat)
    ensures CldrOne(n) || CldrFew(n) || CldrMany(n)
    ensures !(CldrOne(n) && CldrFew(n))
    ensures !(CldrOne(n) && CldrMany(n))
    ensures !(CldrFew(n) && CldrMany(n))
  {
    LastDigitOfLastTwo(n);
  }

  /** The label picks exactly the CLDR category of the count. */
  lemma CountFormIsCldr(n: nat)
    ensures CountForm(n) == One <==> CldrOne(n)
    ensures CountForm(n) == Few <==> CldrFew(n)
    ensures CountForm(n) == Many <==> CldrMany(n)
  {
    LastDigitOfLastTwo(n);
    CldrCategoriesPartition(n);
  }

  /** The `count == 1` branch is redundant: the form depends on the last two
      digits alone. */
  lemma CountFormByLastTwoDigits(n: nat)
    ensures CountForm(n) == CountForm(n % 100)
  {
    LastDigitOfLastTwo(n);
    CountFormIsCldr(n);
    CountFormIsCldr(n % 100);
    assert (n % 100) % 100 == n % 100;
  }

  lemma CountFormExamples()
    ensures CountForm(1) == One && CountForm(21) == One && CountForm(101) == One
    ensures CountForm(11) == Many && CountForm(111) == Many
    ensures CountForm(2) == Few && CountForm(24) == Few && CountForm(112) == Many
    ensures CountForm(0) == Many
    ensures forall n: nat :: 5 <= n <= 20 || 25 <= n <= 30 ==> CountForm(n) == Many
  {
  }
}
