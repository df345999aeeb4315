/**
 * The poll-creation form: the question, the editable option texts, the
 * loading flag, the handlers that edit them, and the submission that
 * validates the form and writes the poll and its options.
 */
module PollForm {
  import opened Wrappers
  import opened PollData
  import opened JsText

  /** An option row to insert: the new poll's id and the option's text as typed. */
  datatype OptionRow = OptionRow(pollId: int, text: string)

  /** A write sent to the backend, in the order the form sends them. */
  datatype Insert =
    | InsertPoll(question: string, userId: UserId)
    | InsertOptions(rows: seq<OptionRow>)

  /** How a submission ended. */
  datatype Submission =
    | BlankQuestion
    | TooFewOptions
    | Failed(message: string)
    | Created(pollId: int)

  /** The options whose trimmed text is not empty, in their original order and untrimmed. */
  function ValidOptions(options: seq<string>): seq<string>
  {
    if |options| == 0 then []
    else ValidOptions(options[..|options| - 1]) + (if Trim(options[|options| - 1]) != [] then [options[|options| - 1]] else [])
  }

  /** `a` is `b` with some elements left out, the rest kept in order. */
  predicate IsSubsequence(a: seq<string>, b: seq<string>)
  {
    if |a| == 0 then true
    else if |b| == 0 then false
    else if a[|a| - 1] == b[|b| - 1] then IsSubsequence(a[..|a| - 1], b[..|b| - 1])
    else IsSubsequence(a, b[..|b| - 1])
  }

  /**
   * Exactly the non-blank options are kept, as often as they occur and with
   * their original (untrimmed) text.
   */
  lemma {:induction false} ValidOptionsCount(options: seq<string>, x: string)
    ensures multiset(ValidOptions(options))[x] == if IsBlank(x) then 0 else multiset(options)[x]
  {
    if |options| > 0 {
      var init, last := options[..|options| - 1], options[|options| - 1];
      ValidOptionsCount(init, x);
      TrimEmptyIffBlank(last);
      assert options == init + [last];
      assert multiset(options)[x] == multiset(init)[x] + multiset([last])[x];
      if Trim(last) != [] {
        assert ValidOptions(options) == ValidOptions(init) + [last];
        assert multiset(ValidOptions(options))[x] == multiset(ValidOptions(init))[x] + multiset([last])[x];
      } else {
        assert ValidOptions(options) == ValidOptions(init) + [];
        assert ValidOptions(init) + [] == ValidOptions(init);
      }
    }
  }

  /** An option is among the valid ones exactly when it is one of the options and not blank. */
  lemma ValidOptionsAreNonBlank(options: seq<string>)
    ensures forall x :: x in ValidOptions(options) <==> x in options && !IsBlank(x)
  {
    forall x
      ensures x in ValidOptions(options) <==> x in options && !IsBlank(x)
    {
      ValidOptionsCount(options, x);
      assert x in ValidOptions(options) <==> multiset(ValidOptions(options))[x] > 0;
      assert x in options <==> multiset(options)[x] > 0;
    }
  }

  /** The valid options keep the order the options had. */
  lemma {:induction false} ValidOptionsKeepOrder(options: seq<string>)
    ensures IsSubsequence(ValidOptions(options), options)
  {
    if |options| > 0 {
      var init, last := options[..|options| - 1], options[|options| - 1];
      var r := ValidOptions(options);
      ValidOptionsKeepOrder(init);
      TrimEmptyIffBlank(last);
      if Trim(last) != [] {
        assert r[..|r| - 1] == ValidOptions(init);
      } else if |r| > 0 {
        ValidOptionsAreNonBlank(init);
        assert r == ValidOptions(init);
        assert r[|r| - 1] in r && r[|r| - 1] != last;
      }
    }
  }

  /** One row per text, in order, each tagged with the new poll's id. */
  function OptionRows(pollId: int, texts: seq<string>): (rows: seq<OptionRow>)
    ensures |rows| == |texts|
  {
    seq(|texts|, i requires 0 <= i < |texts| => OptionRow(pollId, texts[i]))
  }

  /** The texts carried by a list of rows. */
  function RowTexts(rows: seq<OptionRow>): seq<string>
  {
    seq(|rows|, i requires 0 <= i < |rows| => rows[i].text)
  }

  /** The rows give back exactly the texts they were built from, each tagged with the poll id. */
  lemma OptionRowsRoundTrip(pollId: int, texts: seq<string>)
    ensures RowTexts(OptionRows(pollId, texts)) == texts
    ensures forall r :: r in OptionRows(pollId, texts) ==> r.pollId == pollId
  {
  }

  class PollFormState {
    /** The signed-in user; the form is only shown to one. */
    const userId: UserId
    var question: string
    var options: seq<string>
    var loading: bool

    /**
     * Between handlers the form is idle and offers at least two option
     * inputs (the remove button is only shown above two).
     */
    ghost predicate Valid()
      reads this
    {
      |options| >= 2 && !loading
    }

    /** The remove button of each option is rendered only when there are more than two options. */
    predicate CanRemove()
      reads this
    {
      |options| > 2
    }

    /**
     * The browser only submits the form when its `required` inputs, the
     * question and the first two options, are not empty (whitespace passes).
     */
    predicate CanSubmit()
      reads this
      requires Valid()
    {
      question != [] && options[0] != [] && options[1] != []
    }

    /** An empty question and two empty options. */
    constructor (userId: UserId)
      ensures Valid()
      ensures this.userId == userId && question == [] && options == [[], []] && !loading
    {
      this.userId := userId;
      question := [];
      options := [[], []];
      loading := false;
    }

    /** The question input's `onChange`. */
    method ChangeQuestion(value: string)
      requires Valid()
      modifies this
      ensures Valid()
      ensures question == value && options == old(options) && loading == old(loading)
    {
      question := value;
    }

    /** `handleOptionChange(index, value)`: the text at `index` becomes `value`; nothing else changes. */
    method ChangeOption(index: int, value: string)
      requires Valid()
      requires 0 <= index < |options|
      modifies this
      ensures Valid()
      ensures |options| == |old(options)| && options[index] == value
      ensures forall i :: 0 <= i < |options| && i != index ==> options[i] == old(options)[i]
      ensures question == old(question) && loading == old(loading)
    {
      options := options[index := value];
    }

    /** `addOption`: one empty option is appended after the unchanged existing ones. */
    method AddOption()
      requires Valid()
      modifies this
      ensures Valid()
      ensures |options| == |old(options)| + 1 && options[..|old(options)|] == old(options) && options[|options| - 1] == []
      ensures question == old(question) && loading == old(loading)
    {
      options := options + [[]];
    }

    /** `removeOption(index)`: the option at `index` is spliced out and the rest keep their order. */
    method RemoveOption(index: int)
      requires Valid() && CanRemove()
      requires 0 <= index < |options|
      modifies this
      ensures Valid()
      ensures |options| == |old(options)| - 1
      ensures forall i :: 0 <= i < index ==> options[i] == old(options)[i]
      ensures forall i :: index <= i < |options| ==> options[i] == old(options)[i + 1]
      ensures question == old(question) && loading == old(loading)
    {
      options := options[..index] + options[index + 1..];
    }

    /**
     * `handleSubmit` with the poll insert answering `pollInsert` (the new
     * poll's id) and the options insert answering `optionsInsert`. Returns
     * how it ended and the writes it sent, in order.
     */
    method Submit(pollInsert: Result<int>, optionsInsert: Result<()>) returns (outcome: Submission, writes: seq<Insert>)
      requires Valid() && CanSubmit()
      modifies this
      ensures Valid()
      ensures outcome == BlankQuestion <==> IsBlank(old(question))
      ensures outcome == TooFewOptions <==> !IsBlank(old(question)) && |ValidOptions(old(options))| < 2
      ensures outcome.BlankQuestion? || outcome.TooFewOptions? ==> writes == []
      ensures !outcome.BlankQuestion? && !outcome.TooFewOptions? ==>
        && |writes| >= 1 && writes[0] == InsertPoll(old(question), userId)
        && (pollInsert.Err? ==> writes == [writes[0]] && outcome == Failed(pollInsert.message))
        && (pollInsert.Ok? ==> writes == [writes[0], InsertOptions(OptionRows(pollInsert.value, ValidOptions(old(options))))])
        && (pollInsert.Ok? && optionsInsert.Err? ==> outcome == Failed(optionsInsert.message))
        && (pollInsert.Ok? && optionsInsert.Ok? ==> outcome == Created(pollInsert.value))
      ensures outcome.Created? ==> question == [] && options == [[], []]
      ensures !outcome.Created? ==> question == old(question) && options == old(options)
    {
      loading := true;
      TrimEmptyIffBlank(question);
      if Trim(question) == [] {
        loading := false;
        return BlankQuestion, [];
      }
      var validOptions := ValidOptions(options);
      if |validOptions| < 2 {
        loading := false;
        return TooFewOptions, [];
      }
      writes := [InsertPoll(question, userId)];
      if pollInsert.Err? {
        outcome := Failed(pollInsert.message);
      } else {
        var pollId := pollInsert.value;
        writes := writes + [InsertOptions(OptionRows(pollId, validOptions))];
        if optionsInsert.Err? {
          outcome := Failed(optionsInsert.message);
        } else {
          outcome := Created(pollId);
          question := [];
          options := [[], []];
        }
      }
      loading := false;
    }
  }
}
