/**
 * `tap_install_button`: which of the Play Store buttons "Update", "Install" and
 * "Open" the script acts on. The screen is given as the set of texts for which
 * a node exists; pressing the button and leaving the process are left to the
 * caller, which receives the decision.
 */
module InstallButton {

  /** The labels in the order they are tried. */
  const ButtonTexts: seq<string> := ["Update", "Install", "Open"]

  /** The message of the error raised when no button is found. */
  const NotFound: string := "No Install/Update/Open button found"

  /**
   * What the script does: click the button with `text`, stop because the app
   * is already installed, or raise `RuntimeError(message)`.
   */
  datatype Decision = Click(text: string) | AlreadyInstalled | Failure(message: string)

  /**
   * The `for` loop over `labels`: the first label present on screen decides;
   * "Open" means the app is installed and is not clicked; if none is present,
   * the error is raised.
   */
  function Decide(labels: seq<string>, present: set<string>): (d: Decision)
    ensures d.Failure? <==> forall k :: 0 <= k < |labels| ==> labels[k] !in present
    ensures d.Failure? ==> d.message == NotFound
    decreases |labels|
  {
    if labels == [] then Failure(NotFound)
    else if labels[0] in present then
      if labels[0] == "Open" then AlreadyInstalled else Click(labels[0])
    else
      var d := Decide(labels[1..], present);
      assert forall k :: 1 <= k < |labels| ==> labels[k] == labels[1..][k - 1];
      d
  }

  /**
   * When a label is present, the decision is made by the first present one:
   * "Open" stops with the app installed, any other label is clicked.
   */
  lemma {:induction false} DecideFirstPresent(labels: seq<string>, present: set<string>, k: nat)
    requires k < |labels| && labels[k] in present
    requires forall k' :: 0 <= k' < k ==> labels[k'] !in present
    ensures Decide(labels, present) == if labels[k] == "Open" then AlreadyInstalled else Click(labels[k])
    decreases k
  {
    if 0 < k {
      assert labels[0] !in present;
      assert labels[1..][k - 1] == labels[k];
      DecideFirstPresent(labels[1..], present, k - 1);
    }
  }

  /** `tap_install_button` on a screen showing the texts in `present`. */
  function TapInstallButton(present: set<string>): Decision {
    Decide(ButtonTexts, present)
  }

  /**
   * Priority Update > Install > Open: "Update" is clicked whenever present,
   * "Install" only without "Update", "Open" is never clicked and means the app
   * is installed only when neither of the others is present, and the error is
   * raised exactly when none of the three is present.
   */
  lemma TapInstallButtonSpec(present: set<string>)
    ensures var d := TapInstallButton(present);
      (d == Click("Update") <==> "Update" in present) &&
      (d == Click("Install") <==> "Install" in present && "Update" !in present) &&
      (d == AlreadyInstalled <==> "Open" in present && "Update" !in present && "Install" !in present) &&
      (d == Failure(NotFound) <==> "Open" !in present && "Update" !in present && "Install" !in present) &&
      (d.Click? ==> d.text != "Open")
  {
    if "Update" in present {
      DecideFirstPresent(ButtonTexts, present, 0);
    } else if "Install" in present {
      DecideFirstPresent(ButtonTexts, present, 1);
    } else if "Open" in present {
      DecideFirstPresent(ButtonTexts, present, 2);
    } else {
      assert forall k :: 0 <= k < |ButtonTexts| ==> ButtonTexts[k] !in present;
    }
  }

  /** Only the three button texts matter: anything else on screen leaves the decision unchanged. */
  lemma {:induction false} DecideIgnoresOtherTexts(labels: seq<string>, present: set<string>, other: set<string>)
    requires forall k :: 0 <= k < |labels| ==> labels[k] !in other
    ensures Decide(labels, present + other) == Decide(labels, present)
    decreases |labels|
  {
    if labels != [] && labels[0] !in present {
      DecideIgnoresOtherTexts(labels[1..], present, other);
    }
  }
}
