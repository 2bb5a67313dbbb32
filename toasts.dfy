/** Toast notifications: the state `useToast` keeps (src/App.jsx:150-161) and the style lookup of `Toast` (src/App.jsx:173-191). */
module Toasts {
  import opened Wrappers

  /** What `showToast(message, type)` stores. */
  datatype Toast = Toast(message: string, kind: string)

  /** The three entries of the toast's style map (colours and icon are presentation and are not modelled). */
  datatype ToastStyle = SuccessStyle | ErrorStyle | WarningStyle

  /** `styleMap[type] || styleMap.warning`: the known kinds get their own style, every other kind the warning style. */
  function StyleFor(kind: string): (s: ToastStyle)
    ensures s == SuccessStyle <==> kind == "success"
    ensures s == ErrorStyle <==> kind == "error"
    ensures s == WarningStyle <==> kind != "success" && kind != "error"
  {
    if kind == "success" then SuccessStyle
    else if kind == "error" then ErrorStyle
    else WarningStyle
  }

  /** The toast slot of the page; `shown` records every toast shown, in order. */
  class ToastCenter {
    var toast: Option<Toast>
    ghost var shown: seq<Toast>

    constructor ()
      ensures toast == None && shown == []
    {
      toast := None;
      shown := [];
    }

    /** `showToast(message, type)`: the toast now on screen is exactly this one. */
    method Show(message: string, kind: string)
      modifies this
      ensures toast == Some(Toast(message, kind))
      ensures shown == old(shown) + [Toast(message, kind)]
    {
      toast := Some(Toast(message, kind));
      shown := shown + [Toast(message, kind)];
    }
  }
}
