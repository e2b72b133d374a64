/** The dish-detail view controller: the previous/next navigation between
    dishes, the error text and "current comment" mirror derived from the
    comment form, and comment submission.

    The Angular form machinery is not modelled. Each form control is given as
    its value, its dirty flag and the ordered keys of the validation rules it
    currently fails; a control is valid exactly when it fails none. */
module Dishdetail {
  import opened Wrappers
  import opened Js

  /** A comment on a dish, as built by `onSubmit`. */
  datatype Comment = Comment(rating: int, comment: string, author: string, date: string)

  /** A dish record. The controller holds a reference to it and pushes new
      comments onto it in place; only `id` and `comments` are used here. */
  class Dish {
    const id: string
    var comments: seq<Comment>

    constructor (id: string, comments: seq<Comment>)
      ensures this.id == id && this.comments == comments
    {
      this.id := id;
      this.comments := comments;
    }
  }

  /** The three fields of the comment form, and of `formErrors`. */
  datatype Field = NameField | RatingField | CommentField

  /** The order in which `onValueChanged` visits the fields: the declaration
      order of the keys of `formErrors`. */
  const Fields: seq<Field> := [NameField, RatingField, CommentField]

  /** The values of the three fields: the shape of `currentComment` and of
      the form's value. */
  datatype Draft = Draft(name: string, rating: int, comment: string)
  {
    /** `this[f] = from[f]`: the draft with field `f` copied from `from`. */
    function CopyField(f: Field, from: Draft): Draft
    {
      match f
      case NameField => this.(name := from.name)
      case RatingField => this.(rating := from.rating)
      case CommentField => this.(comment := from.comment)
    }
  }

  /** The defaults the form is created with and reset to: name '', rating 5,
      comment ''. `currentComment` starts out as the same record. */
  const DefaultDraft := Draft("", 5, "")

  /** One form control: its value, whether the user has changed it, and the
      keys of the validation rules it fails, in the order they are reported. */
  datatype Control<T> = Control(value: T, dirty: bool, errors: seq<string>)

  /** The keys of the failing rules of each field, as reported by the form's
      validators (which are not modelled). */
  datatype ErrorKeys = ErrorKeys(name: seq<string>, rating: seq<string>, comment: seq<string>)

  /** The comment form group. */
  datatype CommentForm = CommentForm(name: Control<string>, rating: Control<int>, comment: Control<string>)
  {
    /** `form.value`. */
    function Value(): Draft
    {
      Draft(name.value, rating.value, comment.value)
    }

    predicate Dirty(f: Field)
    {
      match f
      case NameField => name.dirty
      case RatingField => rating.dirty
      case CommentField => comment.dirty
    }

    function Errors(f: Field): seq<string>
    {
      match f
      case NameField => name.errors
      case RatingField => rating.errors
      case CommentField => comment.errors
    }

    /** `control.valid`. */
    predicate IsValid(f: Field)
    {
      Errors(f) == []
    }

    /** `form.reset(d)`: every control takes its value from `d` and is
        pristine again; `keys` are what the validators report afterwards. */
    function Reset(d: Draft, keys: ErrorKeys): (r: CommentForm)
      ensures r.Value() == d
      ensures !r.Dirty(NameField) && !r.Dirty(RatingField) && !r.Dirty(CommentField)
      ensures r.Errors(NameField) == keys.name && r.Errors(RatingField) == keys.rating
      ensures r.Errors(CommentField) == keys.comment
    {
      CommentForm(Control(d.name, false, keys.name),
                  Control(d.rating, false, keys.rating),
                  Control(d.comment, false, keys.comment))
    }
  }

  /** The form `createForm` builds: name '', rating 5, comment '', none of
      them dirty. */
  function InitialForm(keys: ErrorKeys): (r: CommentForm)
    ensures r.Value() == DefaultDraft
    ensures !r.Dirty(NameField) && !r.Dirty(RatingField) && !r.Dirty(CommentField)
    ensures r.Errors(NameField) == keys.name && r.Errors(RatingField) == keys.rating
    ensures r.Errors(CommentField) == keys.comment
  {
    CommentForm(Control("", false, keys.name), Control(5, false, keys.rating), Control("", false, keys.comment))
  }

  /** The `validationMessages` table: per field, the message of each rule
      key. The texts are the component's own, including "more that" and the
      comment field's "Email is required". */
  function ValidationMessages(): (r: map<Field, map<string, string>>)
    ensures CoversFields(r)
    ensures r[NameField].Keys == {"required", "minlength", "maxlength"}
    ensures r[RatingField].Keys == {"required", "min", "max"}
    ensures r[CommentField].Keys == {"required"}
  {
    map[NameField :=
          map["required" := "Name is required",
              "minlength" := "Name must be at least 2 characters long",
              "maxlength" := "Name cannot be more that 25 characters long"],
        RatingField :=
          map["required" := "Rating is required",
              "min" := "Rating value cannot be less than 1",
              "max" := "Rating value cannot be more than 5"],
        CommentField :=
          map["required" := "Email is required"]]
  }

  /** A message table with an entry for every field. */
  predicate CoversFields(table: map<Field, map<string, string>>)
  {
    table.Keys == {NameField, RatingField, CommentField}
  }

  /** `messages[key]` as a string operand of `+`: a rule without a message
      reads as `undefined`, which concatenates as "undefined". */
  function MessageFor(messages: map<string, string>, key: string): (r: string)
    ensures key in messages ==> r == messages[key]
    ensures key !in messages ==> r == "undefined"
  {
    if key in messages then messages[key] else "undefined"
  }

  /** What one failing rule adds to the error text: `messages[key] + ' '`. */
  function Piece(messages: map<string, string>, key: string): string
  {
    MessageFor(messages, key) + " "
  }

  /** The text that `formErrors[field] += messages[key] + ' '` has built
      from '' after the first `n` failing rules of `keys`. */
  function TextOfFirst(keys: seq<string>, messages: map<string, string>, n: nat): string
    requires n <= |keys|
  {
    if n == 0 then "" else TextOfFirst(keys, messages, n - 1) + Piece(messages, keys[n - 1])
  }

  /** The error text over all the failing rules `keys`, in order. */
  function ErrorText(keys: seq<string>, messages: map<string, string>): string
  {
    TextOfFirst(keys, messages, |keys|)
  }

  /** The error text of a field after validation: the messages of its failing
      rules when it is dirty and invalid, and '' otherwise. */
  function FieldError(form: CommentForm, f: Field, table: map<Field, map<string, string>>): string
    requires CoversFields(table)
  {
    assert f.NameField? || f.RatingField? || f.CommentField?;
    if form.Dirty(f) && !form.IsValid(f) then ErrorText(form.Errors(f), table[f]) else ""
  }

  /** `formErrors` as validation leaves it. */
  function ErrorTable(form: CommentForm, table: map<Field, map<string, string>>): map<Field, string>
    requires CoversFields(table)
  {
    map[NameField := FieldError(form, NameField, table),
        RatingField := FieldError(form, RatingField, table),
        CommentField := FieldError(form, CommentField, table)]
  }

  /** `currentComment` as validation leaves it, starting from `d`: each field
      holds the control's value when the control is valid and keeps its
      previous value otherwise. */
  function Mirror(d: Draft, form: CommentForm): Draft
  {
    Draft(if form.IsValid(NameField) then form.name.value else d.name,
          if form.IsValid(RatingField) then form.rating.value else d.rating,
          if form.IsValid(CommentField) then form.comment.value else d.comment)
  }

  /** `formErrors` after the loop of `onValueChanged` has visited `fs`. */
  function ValidatedErrors(m: map<Field, string>, form: CommentForm, fs: seq<Field>,
                           table: map<Field, map<string, string>>): map<Field, string>
    requires CoversFields(table)
  {
    if |fs| == 0 then m
    else ValidatedErrors(m, form, fs[..|fs| - 1], table)[fs[|fs| - 1] := FieldError(form, fs[|fs| - 1], table)]
  }

  /** `currentComment` after the loop of `onValueChanged` has visited `fs`. */
  function MirroredOver(d: Draft, form: CommentForm, fs: seq<Field>): Draft
  {
    if |fs| == 0 then d
    else
      var f := fs[|fs| - 1];
      var d' := MirroredOver(d, form, fs[..|fs| - 1]);
      if form.IsValid(f) then d'.CopyField(f, form.Value()) else d'
  }

  /** Visiting the three fields in declaration order yields the error table
      and the mirror, whatever the error texts were before. */
  lemma ValidatedAllFields(m: map<Field, string>, d: Draft, form: CommentForm, table: map<Field, map<string, string>>)
    requires m.Keys == {NameField, RatingField, CommentField} && CoversFields(table)
    ensures ValidatedErrors(m, form, Fields, table) == ErrorTable(form, table)
    ensures MirroredOver(d, form, Fields) == Mirror(d, form)
  {
    var f1, f2 := [NameField], [NameField, RatingField];
    assert Fields[..2] == f2 && f2[..1] == f1 && f1[..0] == [];
    assert ValidatedErrors(m, form, f1, table) == m[NameField := FieldError(form, NameField, table)];
    assert ValidatedErrors(m, form, f2, table)
        == m[NameField := FieldError(form, NameField, table)][RatingField := FieldError(form, RatingField, table)];
    var e, t := ValidatedErrors(m, form, Fields, table), ErrorTable(form, table);
    assert e.Keys == t.Keys;
    assert forall f :: f in e ==> e[f] == t[f];
    assert MirroredOver(d, form, f1) == Mirror(d, form).(rating := d.rating, comment := d.comment);
    assert MirroredOver(d, form, f2) == Mirror(d, form).(comment := d.comment);
  }

  /** The comment `onSubmit` appends: author, comment and rating from the
      form's name, comment and rating fields, and the submission time. */
  function SubmittedComment(value: Draft, date: string): Comment
  {
    Comment(rating := value.rating, comment := value.comment, author := value.name, date := date)
  }

  /** The neighbour `offset` places away from `id`, computed as the source
      does: `dishIds[(dishIds.indexOf(id) + offset) % dishIds.length]` with
      JavaScript's `%`. For an empty list the remainder is NaN and the read
      gives `undefined`. */
  function Neighbour(ids: seq<string>, id: string, offset: int): (r: Option<string>)
    ensures r.Some? ==> r.value in ids
    ensures r.None? <==> |ids| == 0 || Remainder(IndexOf(ids, id) + offset, |ids|) < 0
  {
    if |ids| == 0 then None else ElementAt(ids, Remainder(IndexOf(ids, id) + offset, |ids|))
  }

  /** `prev`: undefined exactly when the list is empty, when `id` is first
      in a list of two or more, or when `id` is absent from a list of three
      or more. */
  function PrevOf(ids: seq<string>, id: string): (r: Option<string>)
    ensures r.Some? ==> r.value in ids
    ensures r.None? <==> |ids| == 0 || (|ids| > 1 && IndexOf(ids, id) == 0) || (|ids| > 2 && id !in ids)
  {
    if |ids| == 0 then None
    else
      PrevCases(ids, id);
      Neighbour(ids, id, -1)
  }

  /** `next`: always an identifier of a non-empty list. */
  function NextOf(ids: seq<string>, id: string): (r: Option<string>)
    ensures r.Some? ==> r.value in ids
    ensures r.Some? <==> |ids| > 0
  {
    Neighbour(ids, id, 1)
  }

  /** The sign of the remainder `prev` reads, by where `id` is found. */
  lemma PrevCases(ids: seq<string>, id: string)
    requires |ids| > 0
    ensures Remainder(IndexOf(ids, id) - 1, |ids|) < 0
        <==> (|ids| > 1 && IndexOf(ids, id) == 0) || (|ids| > 2 && id !in ids)
  {
    var n, i := |ids|, IndexOf(ids, id);
    if i >= 1 {
      RemainderOfSmall(i - 1, n);
    } else if i == 0 {
      if n > 1 {
        RemainderOfSmall(-1, n);
      } else {
        assert Remainder(-1, 1) == 0;
      }
    } else if n > 2 {
      RemainderOfSmall(-2, n);
    } else {
      assert Remainder(-2, n) == 0;
    }
  }

  class DishdetailComponent {
    var dish: Dish
    var dishIds: seq<string>
    var next: Option<string>
    var prev: Option<string>
    var commentForm: Option<CommentForm>
    var currentComment: Draft
    var formErrors: map<Field, string>
    const validationMessages: map<Field, map<string, string>>

    /** `formErrors` always has exactly the three fields as keys, and
        `validationMessages` has an entry for each of them. */
    ghost predicate Valid()
      reads this
    {
      formErrors.Keys == {NameField, RatingField, CommentField} && CoversFields(validationMessages)
    }

    /** The component once `dishIds` and `dish` have arrived: no form yet,
        no neighbours computed, the field initialisers of the source. */
    constructor (dishIds: seq<string>, dish: Dish)
      ensures Valid()
      ensures this.dishIds == dishIds && this.dish == dish
      ensures prev == None && next == None && commentForm == None
      ensures currentComment == DefaultDraft
      ensures formErrors == map[NameField := "", RatingField := "", CommentField := ""]
      ensures validationMessages == ValidationMessages()
    {
      validationMessages := ValidationMessages();
      this.dish := dish;
      this.dishIds := dishIds;
      next, prev := None, None;
      commentForm := None;
      currentComment := DefaultDraft;
      formErrors := map[NameField := "", RatingField := "", CommentField := ""];
    }

    /** `createForm`: builds the form with its defaults and validates it once. */
    method CreateForm(keys: ErrorKeys)
      requires Valid()
      modifies this`commentForm, this`formErrors, this`currentComment
      ensures Valid()
      ensures commentForm == Some(InitialForm(keys))
      ensures formErrors == map[NameField := "", RatingField := "", CommentField := ""]
      ensures currentComment == Mirror(old(currentComment), InitialForm(keys))
    {
      commentForm := Some(InitialForm(keys));
      OnValueChanged();
      PristineFormHasNoErrorText(InitialForm(keys), validationMessages);
    }

    /** `onValueChanged`: recomputes every field's error text and copies the
        values of the valid fields into `currentComment`. */
    method OnValueChanged()
      requires Valid()
      modifies this`formErrors, this`currentComment
      ensures Valid()
      ensures commentForm.None? ==> formErrors == old(formErrors) && currentComment == old(currentComment)
      ensures commentForm.Some? ==> formErrors == ErrorTable(commentForm.value, validationMessages)
      ensures commentForm.Some? ==> currentComment == Mirror(old(currentComment), commentForm.value)
    {
      if commentForm.None? {
        return;
      }
      var form := commentForm.value;
      var i := 0;
      while i < |Fields|
        invariant 0 <= i <= |Fields|
        invariant formErrors == ValidatedErrors(old(formErrors), form, Fields[..i], validationMessages)
        invariant currentComment == MirroredOver(old(currentComment), form, Fields[..i])
      {
        assert Fields[..i + 1][..i] == Fields[..i];
        ValidateField(form, Fields[i]);
        i := i + 1;
      }
      assert Fields[..i] == Fields;
      ValidatedAllFields(old(formErrors), old(currentComment), form, validationMessages);
    }

    /** One pass of the loop in `onValueChanged`: the field's error text is
        cleared and, when the control is dirty and invalid, extended by
        `messages[key] + ' '` for each failing rule; the value is mirrored
        when the control is valid. The text is built in a local and stored
        once, which no reader can tell apart from the source's in-place `+=`. */
    method ValidateField(form: CommentForm, field: Field)
      requires CoversFields(validationMessages)
      modifies this`formErrors, this`currentComment
      ensures formErrors == old(formErrors)[field := FieldError(form, field, validationMessages)]
      ensures currentComment == if form.IsValid(field) then old(currentComment).CopyField(field, form.Value()) else old(currentComment)
    {
      var text := "";
      if form.Dirty(field) && !form.IsValid(field) {
        var messages := validationMessages[field];
        var errors := form.Errors(field);
        var k := 0;
        while k < |errors|
          invariant 0 <= k <= |errors|
          invariant text == TextOfFirst(errors, messages, k)
        {
          text := text + Piece(messages, errors[k]);
          k := k + 1;
        }
      }
      formErrors := formErrors[field := text];
      if form.IsValid(field) {
        currentComment := currentComment.CopyField(field, form.Value());
      }
    }

    /** `onSubmit`: appends one comment built from the form's values and the
        submission time `date` to the dish, then resets `currentComment` and
        the form to the defaults. `keys` are what the validators report for
        the reset values. */
    method OnSubmit(date: string, keys: ErrorKeys)
      requires Valid() && commentForm.Some?
      modifies this`currentComment, this`commentForm, dish
      ensures Valid()
      ensures dish == old(dish)
      ensures dish.comments == old(dish.comments) + [SubmittedComment(old(commentForm.value.Value()), date)]
      ensures currentComment == DefaultDraft
      ensures commentForm == Some(old(commentForm.value).Reset(DefaultDraft, keys))
    {
      var value := commentForm.value.Value();
      var comment := SubmittedComment(value, date);
      dish.comments := dish.comments + [comment];
      currentComment := DefaultDraft;
      commentForm := Some(commentForm.value.Reset(currentComment, keys));
    }

    /** `setPrevNext`: the neighbours of `dishId` in `dishIds`. */
    method SetPrevNext(dishId: string)
      modifies this`prev, this`next
      ensures prev == PrevOf(dishIds, dishId) && next == NextOf(dishIds, dishId)
    {
      if |dishIds| == 0 {
        prev, next := None, None;
        return;
      }
      var index := IndexOf(dishIds, dishId);
      prev := ElementAt(dishIds, Remainder(index - 1, |dishIds|));
      next := ElementAt(dishIds, Remainder(index + 1, |dishIds|));
    }
  }

  // ---------------------------------------------------------------------------
  // Validation text

  /** The text after `n` rules depends only on the first `n` rules. */
  lemma {:induction false} TextOfFirstSamePrefix(s: seq<string>, t: seq<string>, messages: map<string, string>, n: nat)
    requires n <= |s| && n <= |t| && s[..n] == t[..n]
    ensures TextOfFirst(s, messages, n) == TextOfFirst(t, messages, n)
  {
    if n > 0 {
      assert s[..n - 1] == s[..n][..n - 1] && t[..n - 1] == t[..n][..n - 1];
      assert s[n - 1] == s[..n][n - 1] && t[n - 1] == t[..n][n - 1];
      TextOfFirstSamePrefix(s, t, messages, n - 1);
    }
  }

  /** Continuing past `a` into `b` appends the text of `b`'s first `j` rules. */
  lemma {:induction false} TextOfFirstAppend(a: seq<string>, b: seq<string>, messages: map<string, string>, j: nat)
    requires j <= |b|
    ensures TextOfFirst(a + b, messages, |a| + j) == ErrorText(a, messages) + TextOfFirst(b, messages, j)
  {
    if j == 0 {
      assert (a + b)[..|a|] == a[..|a|];
      TextOfFirstSamePrefix(a + b, a, messages, |a|);
    } else {
      TextOfFirstAppend(a, b, messages, j - 1);
      assert (a + b)[|a| + j - 1] == b[j - 1];
      var x, y, z := ErrorText(a, messages), TextOfFirst(b, messages, j - 1), Piece(messages, b[j - 1]);
      assert TextOfFirst(a + b, messages, |a| + j) == (x + y) + z;
      Associative(x, y, z);
    }
  }

  /** The error text is compositional: the text for `a + b` is the text for
      `a` followed by the text for `b`. */
  lemma ErrorTextAppend(a: seq<string>, b: seq<string>, messages: map<string, string>)
    ensures ErrorText(a + b, messages) == ErrorText(a, messages) + ErrorText(b, messages)
  {
    TextOfFirstAppend(a, b, messages, |b|);
  }

  lemma Associative(x: string, y: string, z: string)
    ensures (x + y) + z == x + (y + z)
  {
  }

  /** Read from the front: the first failing rule's message and a space,
      then the text of the rest. */
  lemma ErrorTextCons(key: string, rest: seq<string>, messages: map<string, string>)
    ensures ErrorText([key] + rest, messages) == Piece(messages, key) + ErrorText(rest, messages)
  {
    ErrorTextAppend([key], rest, messages);
    var p := Piece(messages, key);
    assert ErrorText([key], messages) == TextOfFirst([key], messages, 0) + p;
    assert "" + p == p;
  }

  /** The text after `n` rules has (at least) one space per rule. */
  lemma {:induction false} TextOfFirstLength(keys: seq<string>, messages: map<string, string>, n: nat)
    requires n <= |keys|
    ensures |TextOfFirst(keys, messages, n)| >= n
  {
    if n > 0 {
      TextOfFirstLength(keys, messages, n - 1);
    }
  }

  /** A field shows error text exactly when it is dirty and invalid. */
  lemma FieldErrorEmptyIff(form: CommentForm, f: Field, table: map<Field, map<string, string>>)
    requires CoversFields(table)
    ensures FieldError(form, f, table) == "" <==> !(form.Dirty(f) && !form.IsValid(f))
  {
    assert f in table;
    TextOfFirstLength(form.Errors(f), table[f], |form.Errors(f)|);
  }

  /** A form nobody has touched shows no error text, whatever it fails. */
  lemma PristineFormHasNoErrorText(form: CommentForm, table: map<Field, map<string, string>>)
    requires !form.name.dirty && !form.rating.dirty && !form.comment.dirty && CoversFields(table)
    ensures ErrorTable(form, table) == map[NameField := "", RatingField := "", CommentField := ""]
  {
  }

  // ---------------------------------------------------------------------------
  // The current-comment mirror and submission

  /** Validating twice in a row changes nothing more. */
  lemma MirrorIdempotent(d: Draft, form: CommentForm)
    ensures Mirror(Mirror(d, form), form) == Mirror(d, form)
  {
  }

  /** When every control is valid the mirror is exactly the form's value. */
  lemma MirrorOfValidForm(d: Draft, form: CommentForm)
    requires form.IsValid(NameField) && form.IsValid(RatingField) && form.IsValid(CommentField)
    ensures Mirror(d, form) == form.Value()
  {
  }

  /** After a submission the form is the one `createForm` builds: the reset
      defaults are the creation defaults. */
  lemma SubmitRestoresInitialForm(form: CommentForm, keys: ErrorKeys)
    ensures form.Reset(DefaultDraft, keys) == InitialForm(keys)
    ensures InitialForm(keys).Value() == DefaultDraft
  {
  }

  // ---------------------------------------------------------------------------
  // Previous / next navigation

  /** An interior position: both neighbours are the adjacent identifiers of
      the first occurrence of `id`. */
  lemma NeighboursInside(ids: seq<string>, id: string, i: int)
    requires 0 < i < |ids| - 1 && ids[i] == id
    requires forall j :: 0 <= j < i ==> ids[j] != id
    ensures PrevOf(ids, id) == Some(ids[i - 1])
    ensures NextOf(ids, id) == Some(ids[i + 1])
  {
    IndexOfFirstOccurrence(ids, id, i);
    RemainderOfSmall(i - 1, |ids|);
    RemainderOfSmall(i + 1, |ids|);
  }

  /** The last position: `next` wraps around to the first identifier. */
  lemma NextWrapsAtLast(ids: seq<string>, id: string)
    requires |ids| > 0 && ids[|ids| - 1] == id
    requires forall j :: 0 <= j < |ids| - 1 ==> ids[j] != id
    ensures NextOf(ids, id) == Some(ids[0])
    ensures |ids| > 1 ==> PrevOf(ids, id) == Some(ids[|ids| - 2])
  {
    IndexOfFirstOccurrence(ids, id, |ids| - 1);
    RemainderOfLength(|ids|);
    if |ids| > 1 {
      RemainderOfSmall(|ids| - 2, |ids|);
    }
  }

  /** The first position of a longer list: the truncated remainder of -1 is
      -1, so `prev` is `undefined`, not the last identifier. */
  lemma NoPrevAtFirst(ids: seq<string>, id: string)
    requires |ids| > 1 && ids[0] == id
    ensures PrevOf(ids, id) == None
    ensures NextOf(ids, id) == Some(ids[1])
  {
    IndexOfFirstOccurrence(ids, id, 0);
    RemainderOfSmall(-1, |ids|);
    RemainderOfSmall(1, |ids|);
  }

  /** A single identifier: the remainder is -0, so both neighbours are it. */
  lemma SingleDish(ids: seq<string>, id: string)
    requires ids == [id]
    ensures PrevOf(ids, id) == Some(id) && NextOf(ids, id) == Some(id)
  {
    IndexOfFirstOccurrence(ids, id, 0);
    assert Remainder(-1, 1) == 0;
    RemainderOfLength(1);
  }

  /** An identifier that is not in the list: `indexOf` gives -1, so `next`
      is the first identifier, and `prev` reads index -2 % length, which is
      index 0 for lists of one or two identifiers and `undefined` otherwise. */
  lemma AbsentDish(ids: seq<string>, id: string)
    requires |ids| > 0 && id !in ids
    ensures NextOf(ids, id) == Some(ids[0])
    ensures PrevOf(ids, id) == if |ids| <= 2 then Some(ids[0]) else None
  {
  }

  /** Against a cyclic neighbour relation (Dafny's `%` is Euclidean): `next`
      always agrees with it, and `prev` agrees exactly when `id` is not at
      index 0 of a list of two or more. */
  lemma CyclicExceptPrevAtFirst(ids: seq<string>, id: string, i: int)
    requires 0 <= i < |ids| && ids[i] == id
    requires forall j :: 0 <= j < i ==> ids[j] != id
    ensures NextOf(ids, id) == Some(ids[(i + 1) % |ids|])
    ensures PrevOf(ids, id) == Some(ids[(i - 1) % |ids|]) <==> i > 0 || |ids| == 1
  {
    IndexOfFirstOccurrence(ids, id, i);
    if i + 1 < |ids| {
      RemainderOfSmall(i + 1, |ids|);
    } else {
      RemainderOfLength(|ids|);
    }
    if |ids| == 1 {
      assert Remainder(-1, 1) == 0;
    } else {
      RemainderOfSmall(i - 1, |ids|);
    }
  }
}
