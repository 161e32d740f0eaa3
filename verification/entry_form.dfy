/** The create/edit dialog (components/entry-form-dialog.tsx): three text
    fields prefilled from the entry being edited, the payload built from
    them on submit, and the `isSubmitting` flag around the awaited
    `onSubmit`. React state updates are modelled as sequential steps. */
module EntryForm {
  import opened Types

  /** How the awaited `onSubmit` promise settled. */
  datatype Settled = Resolved | Rejected

  /** The dialog's local state. The image field is plain text: an entry
      without an image shows "". */
  datatype Form = Form(title: string, description: string, imageUrl: string, isSubmitting: bool)

  const Blank := Form("", "", "", false)

  /** The effect run whenever `entry` or `open` changes: copy the entry's
      fields in, or clear all three when there is no entry. */
  function Prefill(f: Form, entry: Option<Entry>): (r: Form)
    ensures r.isSubmitting == f.isSubmitting
    ensures entry.Some? ==>
      && r.title == entry.value.title
      && r.description == entry.value.description
      && (entry.value.imageUrl.None? ==> r.imageUrl == "")
      && (entry.value.imageUrl.Some? ==> r.imageUrl == entry.value.imageUrl.value)
    ensures entry.None? ==> r.title == "" && r.description == "" && r.imageUrl == ""
  {
    match entry
    case Some(e) => f.(title := e.title, description := e.description, imageUrl := e.imageUrl.GetOr(""))
    case None => f.(title := "", description := "", imageUrl := "")
  }

  /** The object handed to `onSubmit`: `imageUrl || undefined`, so an empty
      image field means no image. */
  function Payload(f: Form): (c: CreateInput)
    ensures c.title == f.title && c.description == f.description
    ensures c.imageUrl.None? <==> f.imageUrl == ""
    ensures c.imageUrl.Some? ==> c.imageUrl.value == f.imageUrl
  {
    CreateInput(f.title, f.description, if f.imageUrl == "" then None else Some(f.imageUrl))
  }

  /** What the dialog asks of its parent when a submit finishes. */
  datatype Submitted = Submitted(form: Form, closeRequested: bool)

  /** `setIsSubmitting(true)`, the first step of `handleSubmit`. */
  function BeginSubmit(f: Form): (r: Form)
    ensures r.isSubmitting
    ensures Payload(r) == Payload(f)
  {
    f.(isSubmitting := true)
  }

  /** The rest of `handleSubmit` once `onSubmit` has settled: ask the parent
      to close only on success, and clear `isSubmitting` in either case. */
  function FinishSubmit(f: Form, settled: Settled): (r: Submitted)
    ensures !r.form.isSubmitting
    ensures r.closeRequested <==> settled == Resolved
    ensures Payload(r.form) == Payload(f)
  {
    Submitted(f.(isSubmitting := false), settled == Resolved)
  }

  /** The image field normalised the way the payload sees it. */
  function NormalisedImage(imageUrl: Option<string>): Option<string> {
    if imageUrl == Some("") then None else imageUrl
  }

  /** Prefilling from an entry and submitting without edits hands back the
      entry's title and description, and its image with "" read as none. */
  lemma PrefillThenSubmit(f: Form, e: Entry)
    ensures Payload(Prefill(f, Some(e))) == CreateInput(e.title, e.description, NormalisedImage(e.imageUrl))
  {
  }

  /** Building a payload and prefilling from any entry that carries it
      gives back the same three fields. */
  lemma PayloadThenPrefill(f: Form, e: Entry)
    requires e.title == Payload(f).title && e.description == Payload(f).description
    requires e.imageUrl == Payload(f).imageUrl
    ensures var g := Prefill(f, Some(e));
      g.title == f.title && g.description == f.description && g.imageUrl == f.imageUrl
  {
  }
}
