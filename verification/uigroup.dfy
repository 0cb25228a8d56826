/**
 * The kinds of UI a client can register with the service
 * (go/libkb/uigroup.go): seven kinds numbered in declaration order, each
 * with a fixed name. Naming a value outside the seven panics, so String
 * demands a declared kind of its caller.
 */
module UIGroup {

  /** A UIKind is a Go int. */
  type UIKind = int

  const GPGUIKind: UIKind := 0
  const IdentifyUIKind: UIKind := 1
  const LogUIKind: UIKind := 2
  const LoginUIKind: UIKind := 3
  const ProveUIKind: UIKind := 4
  const SecretUIKind: UIKind := 5
  const ProvisionUIKind: UIKind := 6

  /** The declared kinds, in declaration order. */
  const Kinds: seq<UIKind> := [GPGUIKind, IdentifyUIKind, LogUIKind, LoginUIKind, ProveUIKind, SecretUIKind, ProvisionUIKind]

  /** One of the seven declared kinds. */
  predicate Declared(u: UIKind) {
    GPGUIKind <= u <= ProvisionUIKind
  }

  /** The names, by kind. */
  const Names: seq<string> := ["GPGUI", "IdentifyUI", "LogUI", "LoginUI", "ProveUI", "SecretUI", "ProvisionUI"]

  /** String: the kind's name; a value outside the seven is a caller error (the source panics). */
  function String(u: UIKind): (name: string)
    requires Declared(u)
    ensures name == Names[u]
    ensures |name| >= 2 && name[|name| - 2..] == "UI"
  {
    match u
    case 0 => "GPGUI"
    case 1 => "IdentifyUI"
    case 2 => "LogUI"
    case 3 => "LoginUI"
    case 4 => "ProveUI"
    case 5 => "SecretUI"
    case 6 => "ProvisionUI"
  }

  /** The kinds are numbered 0 to 6 in declaration order, and those are exactly the declared values. */
  lemma KindsNumbered()
    ensures forall i :: 0 <= i < |Kinds| ==> Kinds[i] == i
    ensures forall u :: Declared(u) <==> u in Kinds
  {
  }

  /** Distinct kinds have distinct names. */
  lemma StringInjective(u: UIKind, v: UIKind)
    requires Declared(u) && Declared(v) && u != v
    ensures String(u) != String(v)
  {
    assert Names[u] != Names[v] by {
      assert forall i, j :: 0 <= i < j < |Names| ==> Names[i] != Names[j];
    }
  }
}
