/**
 * The registry-facing part of src/components/DialogManager.tsx: the "Add Dialog"
 * button names each new dialog "Dialog N", N being the registry length plus one,
 * and a dialog's Close button calls closeDialog with its id.
 */
module DialogManager {
  import opened Registry

  predicate IsDigits(s: string) {
    forall i :: 0 <= i < |s| ==> '0' <= s[i] <= '9'
  }

  function Digit(d: nat): (c: char)
    requires d < 10
    ensures '0' <= c <= '9' && c as int - '0' as int == d
  {
    (d + '0' as int) as char
  }

  /** The decimal numeral a template literal renders for a natural number. */
  function DecimalString(n: nat): (s: string)
    ensures |s| > 0 && IsDigits(s)
    ensures s[0] == '0' <==> n == 0
    decreases n
  {
    if n < 10 then [Digit(n)] else DecimalString(n / 10) + [Digit(n % 10)]
  }

  /** The number a string of decimal digits denotes. */
  function DecimalValue(s: string): (n: nat)
    requires IsDigits(s)
  {
    if s == [] then 0 else DecimalValue(s[..|s| - 1]) * 10 + (s[|s| - 1] as int - '0' as int)
  }

  lemma {:induction false} DecimalRoundTrip(n: nat)
    ensures DecimalValue(DecimalString(n)) == n
    decreases n
  {
    if n >= 10 {
      var s := DecimalString(n);
      assert s[..|s| - 1] == DecimalString(n / 10);
      DecimalRoundTrip(n / 10);
    }
  }

  /** handleAddDialog's title: "Dialog " followed by the 1-based ordinal of the new dialog. */
  function DefaultTitle(count: nat): (t: string)
    ensures |t| > 7 && t[..7] == "Dialog " && IsDigits(t[7..])
    ensures DecimalValue(t[7..]) == count + 1
    ensures t[7] != '0'
  {
    DecimalRoundTrip(count + 1);
    var t := "Dialog " + DecimalString(count + 1);
    assert t[7..] == DecimalString(count + 1);
    t
  }

  /** Two registry lengths never give the same default title. */
  lemma DefaultTitleInjective(m: nat, n: nat)
    requires DefaultTitle(m) == DefaultTitle(n)
    ensures m == n
  {
  }

  /** handleAddDialog: addDialog with the default title for the current length. */
  function HandleAddDialog<C>(dialogs: seq<DialogData<C>>, content: C, id: int)
    : (r: seq<DialogData<C>>)
    ensures |r| == |dialogs| + 1 && r == AddDialog(dialogs, Last(r).title, content, id)
    ensures Last(r).title == DefaultTitle(|dialogs|)
    ensures |Last(r).title| > 7 && Last(r).title[..7] == "Dialog "
    ensures IsDigits(Last(r).title[7..]) && DecimalValue(Last(r).title[7..]) == |r|
  {
    AddDialog(dialogs, DefaultTitle(|dialogs|), content, id)
  }

  /** The two gestures the rendered dialogs report back to the registry. */
  datatype Click<C> = AddClick(content: C, id: int) | CloseClick(id: int)

  function Dispatch<C>(dialogs: seq<DialogData<C>>, click: Click<C>): (r: seq<DialogData<C>>) {
    match click
    case AddClick(content, id) => HandleAddDialog(dialogs, content, id)
    case CloseClick(id) => CloseDialog(dialogs, id)
  }

  function DispatchAll<C>(dialogs: seq<DialogData<C>>, clicks: seq<Click<C>>): (r: seq<DialogData<C>>)
    decreases |clicks|
  {
    if clicks == [] then dialogs else DispatchAll(Dispatch(dialogs, clicks[0]), clicks[1..])
  }

  /** Every record carries the default title of its own index. */
  predicate TitledByOrdinal<C>(dialogs: seq<DialogData<C>>) {
    forall k :: 0 <= k < |dialogs| ==> dialogs[k].title == DefaultTitle(k)
  }

  /**
   * Driven only by its buttons, the registry names its k-th record "Dialog k+1":
   * closed records keep counting, since closing never removes one.
   */
  lemma {:induction false} ClicksTitleByOrdinal<C>(dialogs: seq<DialogData<C>>, clicks: seq<Click<C>>)
    requires TitledByOrdinal(dialogs)
    ensures TitledByOrdinal(DispatchAll(dialogs, clicks))
    decreases |clicks|
  {
    if clicks != [] {
      var next := Dispatch(dialogs, clicks[0]);
      assert TitledByOrdinal(next) by {
        if clicks[0].AddClick? {
          forall k | 0 <= k < |next| ensures next[k].title == DefaultTitle(k) {
            if k < |dialogs| {
              assert next[k] == next[..|dialogs|][k];
            }
          }
        }
      }
      ClicksTitleByOrdinal(next, clicks[1..]);
    }
  }

  /** Hence titles made by the buttons alone are pairwise distinct. */
  lemma ClickTitlesDistinct<C>(clicks: seq<Click<C>>, i: nat, j: nat)
    requires i < j < |DispatchAll([], clicks)|
    ensures DispatchAll([], clicks)[i].title != DispatchAll([], clicks)[j].title
  {
    ClicksTitleByOrdinal([], clicks);
    if DefaultTitle(i) == DefaultTitle(j) {
      DefaultTitleInjective(i, j);
    }
  }
}
