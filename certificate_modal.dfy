/**
 * The certificate preview: a modal container (`#certificateModal`) holding an
 * image (`#certImage`). Opening sets the image source and shows the container;
 * closing hides it and clears the source. It closes on a click on the container
 * itself and on Escape; `.exp` elements open it on Enter by reading the path out
 * of their inline `onclick` text.
 *
 * The modal's state lives in the page's attributes; the class below holds them.
 */
module CertificateModal {
  import opened Wrappers
  import OnclickPattern

  /** How a handler finished: normally, or by throwing a `TypeError`. */
  datatype Completion = Normal | ThrewTypeError

  class Modal {
    /** Whether `#certificateModal` and `#certImage` exist. */
    const hasModal: bool
    const hasImage: bool
    /** The container's `aria-hidden` attribute and inline `display` style. */
    var ariaHidden: string
    var display: string
    /** The image's `src`. */
    var src: string

    /** The modal is on screen and announced to assistive technology. */
    predicate Shown()
      reads this
    {
      ariaHidden == "false" && display == "flex"
    }

    /** The modal is off screen and hidden from assistive technology. */
    predicate Hidden()
      reads this
    {
      ariaHidden == "true" && display == "none"
    }

    constructor (hasModal: bool, hasImage: bool, ariaHidden: string, display: string, src: string)
      ensures this.hasModal == hasModal && this.hasImage == hasImage
      ensures this.ariaHidden == ariaHidden && this.display == display && this.src == src
    {
      this.hasModal, this.hasImage := hasModal, hasImage;
      this.ariaHidden, this.display, this.src := ariaHidden, display, src;
    }

    /** `openCertificate(imgSrc)`: show `imgSrc`, or do nothing when an element is missing. */
    method Open(imgSrc: string)
      modifies this
      ensures hasModal && hasImage ==> Shown() && src == imgSrc
      ensures !(hasModal && hasImage) ==> unchanged(this)
    {
      if !hasModal || !hasImage {
        return;
      }
      src := imgSrc;
      ariaHidden := "false";
      display := "flex";
    }

    /**
     * `closeCertificate()`: nothing without the container; otherwise hide it and
     * clear the image source. The image is not checked for: without it the
     * container is hidden and then the write to its `src` throws.
     */
    method Close() returns (outcome: Completion)
      modifies this
      ensures !hasModal ==> outcome == Normal && unchanged(this)
      ensures hasModal ==> Hidden()
      ensures hasModal && hasImage ==> outcome == Normal && src == ""
      ensures hasModal && !hasImage ==> outcome == ThrewTypeError && src == old(src)
    {
      if !hasModal {
        return Normal;
      }
      ariaHidden := "true";
      display := "none";
      if !hasImage {
        return ThrewTypeError;
      }
      src := "";
      return Normal;
    }

    /**
     * A click reaching the container's listener (attached only when the container
     * exists). It closes only when the click's target is the container itself,
     * not content inside it.
     */
    method OnClick(targetIsModal: bool) returns (outcome: Completion)
      requires hasModal
      modifies this
      ensures targetIsModal ==> Hidden() && (outcome == Normal <==> hasImage)
      ensures targetIsModal && hasImage ==> src == ""
      ensures targetIsModal && !hasImage ==> src == old(src)
      ensures !targetIsModal ==> outcome == Normal && unchanged(this)
    {
      outcome := Normal;
      if targetIsModal {
        outcome := Close();
      }
    }

    /** A key press anywhere on the document: Escape closes, open or not. */
    method OnKeyDown(key: string) returns (outcome: Completion)
      modifies this
      ensures key == "Escape" && hasModal ==> Hidden() && (outcome == Normal <==> hasImage)
      ensures key == "Escape" && hasModal && hasImage ==> src == ""
      ensures key == "Escape" && hasModal && !hasImage ==> src == old(src)
      ensures !(key == "Escape" && hasModal) ==> outcome == Normal && unchanged(this)
    {
      outcome := Normal;
      if key == "Escape" {
        outcome := Close();
      }
    }

    /**
     * A key press on an `.exp` element whose `onclick` attribute is `onclick`
     * (`None` when absent). On Enter, a non-empty attribute that matches the
     * pattern opens the modal with the extracted path; anything else does nothing.
     */
    method OnExpKeyPress(key: string, onclick: Option<string>)
      modifies this
      ensures var path := if onclick.Some? then OnclickPattern.ExtractPath(onclick.value) else None;
              if key == "Enter" && path.Some? && hasModal && hasImage
              then Shown() && src == path.value
              else unchanged(this)
    {
      if key == "Enter" {
        if onclick.Some? && onclick.value != "" {
          var found := OnclickPattern.ExtractPath(onclick.value);
          if found.Some? {
            Open(found.value);
          }
        }
      }
    }
  }

  /** Opening and then closing leaves the modal hidden with no image source. */
  method OpenThenClose(m: Modal, imgSrc: string) returns (outcome: Completion)
    requires m.hasModal && m.hasImage
    modifies m
    ensures outcome == Normal && m.Hidden() && m.src == ""
  {
    m.Open(imgSrc);
    assert m.Shown() && m.src == imgSrc;
    outcome := m.Close();
  }

  /** Pressing Escape while the modal shows an image hides it and clears the image. */
  method EscapeWhileOpen(m: Modal) returns (outcome: Completion)
    requires m.hasModal && m.hasImage && m.Shown()
    modifies m
    ensures outcome == Normal && m.Hidden() && m.src == ""
  {
    outcome := m.OnKeyDown("Escape");
  }

  /** Enter on `openCertificate('<path>')` opens the modal on that path. */
  method EnterOpensPath(m: Modal, path: string)
    requires m.hasModal && m.hasImage
    requires |path| >= 1 && OnclickPattern.NoLineTerminator(path)
    requires forall i :: 0 <= i < |path| ==> !OnclickPattern.IsQuote(path[i])
    modifies m
    ensures m.Shown() && m.src == path
  {
    OnclickPattern.ExtractCall('\'', path, '\'', "");
    m.OnExpKeyPress("Enter", Some(OnclickPattern.Call('\'', path, '\'', "")));
  }
}
