/**
 The page that holds the widget together: the active information tab and at
 most one open dialog, from which the calendar, map, FAQ and contact dialogs
 each derive whether they are shown.
 */
module Page {
  import opened Wrappers
  import Contact

  /** The ids of the information tabs. */
  const Tabs: set<string> := {"academics", "facilities", "events", "dining", "library"}

  /** The ids of the quick-action buttons, each naming the dialog it opens. */
  const QuickActions: seq<string> := ["calendar", "map", "faq", "contact"]

  /** The dialogs the page renders. */
  datatype Dialog = Calendar | Map | FaqDialog | ContactDialog

  /** The id under which each dialog is shown. */
  function DialogId(d: Dialog): string {
    match d
    case Calendar => "calendar"
    case Map => "map"
    case FaqDialog => "faq"
    case ContactDialog => "contact"
  }

  datatype PageState = PageState(activeTab: string, activeModal: Option<string>)

  /** The page opens on the academics tab with no dialog shown. */
  const Initial: PageState := PageState("academics", None)

  /** `handleActionClick`: the clicked action becomes the open dialog,
      replacing any other. */
  function HandleActionClick(s: PageState, action: string): (r: PageState)
    ensures r.activeModal == Some(action) && r.activeTab == s.activeTab
  {
    s.(activeModal := Some(action))
  }

  /** `closeModal`: no dialog is open any more. */
  function CloseModal(s: PageState): (r: PageState)
    ensures r.activeModal == None && r.activeTab == s.activeTab
  {
    s.(activeModal := None)
  }

  /** Choosing a tab. */
  function SetActiveTab(s: PageState, tab: string): (r: PageState)
    ensures r.activeTab == tab && r.activeModal == s.activeModal
  {
    s.(activeTab := tab)
  }

  /** The `isOpen` flag handed to a dialog. */
  predicate IsOpen(s: PageState, d: Dialog) {
    s.activeModal == Some(DialogId(d))
  }

  /** No dialog is shown at first. */
  lemma NothingOpenInitially(d: Dialog)
    ensures !IsOpen(Initial, d)
    ensures Initial.activeTab in Tabs
  {
  }

  /** The four dialogs have distinct ids, so at most one is ever shown. */
  lemma AtMostOneOpen(s: PageState, d: Dialog, e: Dialog)
    requires IsOpen(s, d) && IsOpen(s, e)
    ensures d == e
  {
  }

  /** Each quick action opens exactly the dialog of the same name and shuts
      every other. */
  lemma QuickActionOpensItsDialog(s: PageState, k: int, d: Dialog)
    requires 0 <= k < |QuickActions|
    ensures IsOpen(HandleActionClick(s, QuickActions[k]), d) <==> DialogId(d) == QuickActions[k]
    ensures exists e :: DialogId(e) == QuickActions[k]
  {
    var e := match k case 0 => Calendar case 1 => Map case 2 => FaqDialog case _ => ContactDialog;
    assert DialogId(e) == QuickActions[k];
  }

  /** An action id that names no dialog shows none. */
  lemma UnknownActionShowsNothing(s: PageState, action: string, d: Dialog)
    requires action !in {"calendar", "map", "faq", "contact"}
    ensures !IsOpen(HandleActionClick(s, action), d)
  {
  }

  /** Closing shuts every dialog, and closing again changes nothing. */
  lemma CloseShutsAll(s: PageState, d: Dialog)
    ensures !IsOpen(CloseModal(s), d)
    ensures CloseModal(CloseModal(s)) == CloseModal(s)
  {
  }

  /** The tab and the open dialog are independent: changing one leaves the
      other, and the two kinds of change can be made in either order. */
  lemma TabAndDialogIndependent(s: PageState, tab: string, action: string)
    ensures SetActiveTab(HandleActionClick(s, action), tab) == HandleActionClick(SetActiveTab(s, tab), action)
    ensures SetActiveTab(CloseModal(s), tab) == CloseModal(SetActiveTab(s, tab))
  {
  }

  /** Submitting the contact form while its dialog is shown: an accepted
      request clears the form and closes the dialog through `closeModal`;
      a rejected one leaves both as they were. */
  function SubmitContact(s: PageState, form: Contact.FormData): (r: (PageState, Contact.FormData))
    ensures Contact.HandleSubmit(form).notice == Contact.Submitted ==>
              r.0 == CloseModal(s) && r.1 == Contact.EmptyForm
    ensures Contact.HandleSubmit(form).notice == Contact.MissingFields ==> r == (s, form)
  {
    var outcome := Contact.HandleSubmit(form);
    if outcome.closeRequested then (CloseModal(s), outcome.form) else (s, outcome.form)
  }

  /** After an accepted contact request no dialog is shown and the tab is
      unchanged. */
  lemma AcceptedContactClosesDialog(s: PageState, form: Contact.FormData, d: Dialog)
    requires IsOpen(s, ContactDialog)
    requires Contact.HandleSubmit(form).notice == Contact.Submitted
    ensures !IsOpen(SubmitContact(s, form).0, d)
    ensures SubmitContact(s, form).0.activeTab == s.activeTab
  {
  }
}
