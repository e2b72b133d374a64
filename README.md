# conFusion dish detail and leader lookup, in Dafny

A model of the two pieces of sequential logic in the conFusion restaurant-menu
application (an Angular app):

- **The dish-detail controller** (`DishdetailComponent`), as the class
  `Dishdetail.DishdetailComponent` with the fields the source updates in place:
  `dishIds`, `prev`, `next`, `dish` (whose `comments` grow in place),
  `commentForm`, `currentComment` and `formErrors`.
  - `setPrevNext` finds the current dish with `indexOf` and reads
    `dishIds[(index ∓ 1) % dishIds.length]` with JavaScript's truncating `%`
    (`Js.Remainder`; Dafny's own `%` is Euclidean). A read outside the array,
    which JavaScript answers with `undefined`, is `None`. So at index 0 of a
    list of two or more `prev` is `undefined`, a one-element list gives `-0`,
    which reads element 0, and an absent id (index -1) gives
    `next = dishIds[0]`.
  - `onValueChanged` visits `name`, `rating` and `comment` in declaration
    order. It clears each field's error text. For a control that is dirty and
    invalid it appends `messages[key] + ' '` for each failing rule, where a
    rule without a message reads as `"undefined"`. The `validationMessages`
    table is a constant of the class, holding the component's own texts.
    It copies the value of each valid control into the `currentComment`
    mirror.
  - `onSubmit` appends one comment built from the form's values and a
    timestamp passed in. It then resets `currentComment` and the form to
    `{name: '', rating: 5, comment: ''}`, the values `createForm` starts with.
  - Form controls are inputs: a value, a dirty flag and the ordered keys of
    the validation rules the control fails. A control is valid exactly when
    it fails none. The validators themselves are not modelled.
- **The leader service**, as pure functions over the leader sequence, which is
  passed in as a parameter. `getLeaders` returns it unchanged. `getLeader` and
  `getFeaturedLeader` take element 0 of a `filter`, which is `None`
  (`undefined`) when nothing matches. Since the sequence is a value, no query
  can modify it.

Files: `wrappers.dfy` (`Option`), `js_builtins.dfy` (the JavaScript `%`,
array read, `indexOf` and `filter`), `leader_service.dfy`, `dishdetail.dfy`.

Three behaviours of the code worth knowing:
- Neighbours are not cyclic at index 0: `prev` is `undefined` there
  (`CyclicExceptPrevAtFirst` says exactly where the two agree).
- An absent id is not left undefined: `next` is the first id, and `prev` is
  the first id for lists of one or two ids and `undefined` otherwise.
- Error messages are appended in the order of the control's failing rule
  keys; that order is an input of the model.

## Model

| member | source | states |
|---|---|---|
| `Js.Remainder` | src/app/dishdetail/dishdetail.component.ts:126-127 | JavaScript `%`: the result lies strictly between -n and n and has the sign of the dividend |
| `Js.RemainderCongruent` | src/app/dishdetail/dishdetail.component.ts:126-127 | the dividend and its truncated remainder differ by a multiple of n, so the remainder is determined uniquely |
| `Js.IndexOf` | src/app/dishdetail/dishdetail.component.ts:125 | `indexOf` gives -1 exactly when the id is absent; otherwise it gives an index holding the id, and no earlier index holds it |
| `Js.IndexOfFirstOccurrence` | src/app/dishdetail/dishdetail.component.ts:125 | when i is the first index holding the id, `indexOf` returns i |
| `Js.ElementAt` | src/app/dishdetail/dishdetail.component.ts:126-127 | an array read (here, and the `[0]` at leader.service.ts lines 18 and 22) is defined exactly for an index inside the array, and then gives the element at that index |
| `Js.Filter` | src/app/services/leader.service.ts:17-23 | `filter` keeps only elements of the input that satisfy the predicate, is no longer than the input, and is empty exactly when no element satisfies it |
| `Js.FilterHead` | src/app/services/leader.service.ts:17-23 | element 0 of `filter(p)` is the first element satisfying p |
| `LeaderService.GetLeaders` | src/app/services/leader.service.ts:13-15 | `getLeaders` returns the leader sequence unchanged, element by element |
| `LeaderService.GetLeader` | src/app/services/leader.service.ts:17-19 | a returned leader is in the sequence and has the id; no leader is returned exactly when no element has that id; the lookup never fails |
| `LeaderService.GetLeaderIsFirstMatch` | src/app/services/leader.service.ts:17-19 | the leader returned is the first with the id; no earlier element matches |
| `LeaderService.GetFeaturedLeader` | src/app/services/leader.service.ts:21-23 | a returned leader is in the sequence and is featured; no leader is returned exactly when none is featured |
| `LeaderService.GetFeaturedLeaderIsFirstFeatured` | src/app/services/leader.service.ts:21-23 | the leader returned is the first featured one |
| `Dishdetail.ValidationMessages` | src/app/dishdetail/dishdetail.component.ts:36-50 | the table has an entry for each of the three fields; name has messages for `required`, `minlength` and `maxlength`, rating for `required`, `min` and `max`, comment for `required`, so each rule declared at lines 73-75 has a message |
| `Dishdetail.MessageFor` | src/app/dishdetail/dishdetail.component.ts:97 | `messages[key]` is the field's message for a key in the table and reads as `"undefined"` for any other key |
| `Dishdetail.InitialForm` | src/app/dishdetail/dishdetail.component.ts:72-76 | the group's value is name `''`, rating 5 and comment `''`; no control is dirty; each control fails the rules the validators report |
| `Dishdetail.CommentForm.Reset` | src/app/dishdetail/dishdetail.component.ts:120 | after `form.reset(d)` the form's value is `d` and no control is dirty; each control fails the rules the validators report for the new value |
| `Dishdetail.Neighbour` | src/app/dishdetail/dishdetail.component.ts:125-127 | the neighbour is an id of the list when defined, and is `undefined` exactly when the list is empty or the truncated remainder is negative |
| `Dishdetail.PrevOf` | src/app/dishdetail/dishdetail.component.ts:126 | `prev` is an id of the list when defined; it is `undefined` exactly when the list is empty, the id is first in a list of two or more, or the id is absent from a list of three or more |
| `Dishdetail.NextOf` | src/app/dishdetail/dishdetail.component.ts:127 | `next` is an id of the list when defined, and it is defined exactly when the list is non-empty |
| `Dishdetail.DishdetailComponent.constructor` | src/app/dishdetail/dishdetail.component.ts:16-34 | field initialisers: `currentComment` is `{'', 5, ''}`, all three error texts are `''`, there is no form yet, and no neighbours are set |
| `Dishdetail.DishdetailComponent.CreateForm` | src/app/dishdetail/dishdetail.component.ts:71-81 | the form holds name `''`, rating 5 and comment `''`, none of them dirty; the validation run that follows leaves every error text `''` and mirrors the valid defaults |
| `Dishdetail.DishdetailComponent.OnValueChanged` | src/app/dishdetail/dishdetail.component.ts:83-107 | with no form nothing changes; otherwise `formErrors` becomes the table of field error texts and `currentComment` the mirror of the valid controls, and the three-key invariant is kept |
| `Dishdetail.DishdetailComponent.ValidateField` | src/app/dishdetail/dishdetail.component.ts:89-105 | one field's pass: its error text becomes the concatenated messages when the control is dirty and invalid and `''` otherwise; the other fields' texts are untouched; the value is mirrored only when the control is valid |
| `Dishdetail.ValidatedAllFields` | src/app/dishdetail/dishdetail.component.ts:88-106 | visiting name, rating and comment in order gives exactly the error table and the mirror, whatever the texts were before |
| `Dishdetail.DishdetailComponent.OnSubmit` | src/app/dishdetail/dishdetail.component.ts:109-120 | the dish gains exactly one comment at the end, earlier comments are unchanged, and author/comment/rating come from the form's name/comment/rating; then the mirror and the form values are reset to the defaults and the form is pristine |
| `Dishdetail.SubmitRestoresInitialForm` | src/app/dishdetail/dishdetail.component.ts:117-120 | the form reset after a submission is the form `createForm` builds, and its value is the default mirror |
| `Dishdetail.DishdetailComponent.SetPrevNext` | src/app/dishdetail/dishdetail.component.ts:124-128 | `prev` and `next` become the neighbours computed with `indexOf` and the truncating remainder (characterised by the lemmas below) |
| `Dishdetail.NeighboursInside` | src/app/dishdetail/dishdetail.component.ts:124-128 | when the id first occurs at i with 0 < i < length-1, `prev` is the id at i-1 and `next` the id at i+1 |
| `Dishdetail.NextWrapsAtLast` | src/app/dishdetail/dishdetail.component.ts:127 | at the last index `next` wraps to the first id, and `prev` is the id before it |
| `Dishdetail.NoPrevAtFirst` | src/app/dishdetail/dishdetail.component.ts:126-127 | at index 0 of a list of two or more, `prev` is undefined rather than the last id; `next` is the second id |
| `Dishdetail.SingleDish` | src/app/dishdetail/dishdetail.component.ts:126-127 | with a single id, `prev` and `next` are both that id |
| `Dishdetail.AbsentDish` | src/app/dishdetail/dishdetail.component.ts:125-127 | for an absent id, `next` is the first id; `prev` is the first id for lists of one or two and undefined otherwise |
| `Dishdetail.CyclicExceptPrevAtFirst` | src/app/dishdetail/dishdetail.component.ts:124-128 | compared with cyclic neighbours, `next` always agrees, and `prev` agrees exactly when the id is not at index 0 of a list of two or more |
| `Dishdetail.ErrorTextAppend` | src/app/dishdetail/dishdetail.component.ts:94-99 | the text built with `+=` over the rules `a + b` is the text for `a` followed by the text for `b` |
| `Dishdetail.ErrorTextCons` | src/app/dishdetail/dishdetail.component.ts:94-99 | the text starts with the first failing rule's message and a space, followed by the text for the rest |
| `Dishdetail.TextOfFirstLength` | src/app/dishdetail/dishdetail.component.ts:94-99 | each failing rule adds at least one character, its trailing space |
| `Dishdetail.TextOfFirstAppend` | src/app/dishdetail/dishdetail.component.ts:94-99 | after all the rules of `a`, continuing into `b` extends the text of `a` by the text of `b`'s first rules |
| `Dishdetail.FieldErrorEmptyIff` | src/app/dishdetail/dishdetail.component.ts:90-100 | a field's error text is `''` exactly when the control is not both dirty and invalid |
| `Dishdetail.PristineFormHasNoErrorText` | src/app/dishdetail/dishdetail.component.ts:72-80 | a form with no dirty control shows no error text, whatever rules it fails |
| `Dishdetail.MirrorIdempotent` | src/app/dishdetail/dishdetail.component.ts:102-104 | running the mirror update twice on the same form equals running it once |
| `Dishdetail.MirrorOfValidForm` | src/app/dishdetail/dishdetail.component.ts:102-104 | when every control is valid, the mirror is exactly the form's value |

## Left out

- `ngOnInit`: the subscriptions that deliver `dishIds` and the dish, and the `switchMap` fetch with its ordering races, are asynchronous plumbing. `dishIds` and `dish` are given to the constructor as state.
- The `valueChanges` subscription made in `createForm` (line 78) is not modelled, and neither are user edits to the form. Angular updates the controls; a caller models that by assigning `commentForm` and then calling `OnValueChanged`. The re-validation that `form.reset` would trigger through this subscription is therefore not part of `OnSubmit`.
- Angular's validators (`required`, `minLength`, `maxLength`, `min`, `max`) are library code that is not part of this model. Each control's failing rule keys are inputs, including the keys reported after `createForm` and after a reset (the `ErrorKeys` parameters). A control that is disabled or pending is not modelled: validity is "fails no rule".
- `commentFormDirective.resetForm()` (line 121) and `@ViewChild` are framework directive internals and are not modelled. Called with no value, `resetForm` resets the form group again, so the program's final form values are not the line-120 defaults: `SubmitRestoresInitialForm` and the reset part of `OnSubmit`'s contract describe the state after line 120, before line 121 runs.
- `new Date().toISOString()` depends on the clock: `OnSubmit` takes the timestamp as an opaque string.
- `DishdetailComponent.OnSubmit`: requires a form. The source dereferences `commentForm` and `dish` without checks, so it would throw before either exists; that error path is not modelled.
- `DishdetailComponent.ValidateField`: builds a field's error text in a local and stores it once, where the source applies `+=` to `formErrors[field]` for each rule. Nothing runs between those steps, so the final state is the same.
- `goBack`/`Location.back()`, `console.log`, templates, styles and dependency injection are UI and I/O.
- `DishService`, the leader data and the `Dish`, `Comment` and `Leader` definitions are in files that are not part of this model. Only the fields used here are modelled. A leader's other descriptive fields are carried as an opaque map.
- `LeaderService.GetLeaders`: returns the sequence as a value, so the model does not capture that the source returns the shared array, through which a caller could mutate the leader data.
- The validation message texts are reproduced as written, including "cannot be more that 25" and the comment field's "Email is required".
