/** Which link clicks the PJAX script takes over (public/pjax.js): only a
    same-window link with an href that is not a mail, phone or in-page
    link. The origin check and the fetch-and-swap are not part of this
    model. */
module Pjax {
  import opened Common
  import opened Text

  /** An anchor element: its `href` attribute (None when absent) and its
      `target` property (the empty string when not set). */
  datatype Anchor = Anchor(href: Option<string>, target: string)

  /** `isNavigableLink`, the guards in source order. */
  function IsNavigableLink(a: Option<Anchor>): (navigable: bool)
    ensures navigable <==>
      && a.Some? && a.value.href.Some? && a.value.href.value != ""
      && !StartsWith(a.value.href.value, "mailto:") && !StartsWith(a.value.href.value, "tel:")
      && (a.value.target == "" || a.value.target == "_self")
      && !StartsWith(a.value.href.value, "#")
  {
    if a.None? then false
    else if a.value.href.None? || a.value.href.value == "" then false
    else
      var href := a.value.href.value;
      if StartsWith(href, "mailto:") || StartsWith(href, "tel:") then false
      else if a.value.target != "" && a.value.target != "_self" then false
      else if StartsWith(href, "#") then false
      else true
  }

  /** A same-window link to a path of the site is taken over; a link to a
      mail address, a phone number or an anchor on the page, or one that
      opens another window, is left to the browser. */
  lemma NavigableExamples(path: string, rest: string, target: string)
    requires StartsWith(path, "/")
    requires target != "" && target != "_self"
    ensures IsNavigableLink(Some(Anchor(Some(path), "")))
    ensures IsNavigableLink(Some(Anchor(Some(path), "_self")))
    ensures !IsNavigableLink(Some(Anchor(Some(path), target)))
    ensures !IsNavigableLink(Some(Anchor(Some("mailto:" + rest), "")))
    ensures !IsNavigableLink(Some(Anchor(Some("tel:" + rest), "")))
    ensures !IsNavigableLink(Some(Anchor(Some("#" + rest), "")))
    ensures !IsNavigableLink(Some(Anchor(None, ""))) && !IsNavigableLink(None)
  {
    assert path[0] == path[..1][0] == '/';
    assert StartsWith("mailto:" + rest, "mailto:") by { assert ("mailto:" + rest)[..7] == "mailto:"; }
    assert StartsWith("tel:" + rest, "tel:") by { assert ("tel:" + rest)[..4] == "tel:"; }
    assert StartsWith("#" + rest, "#") by { assert ("#" + rest)[..1] == "#"; }
  }
}
