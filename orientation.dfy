/**
 * The `useOrientation` hook of src/hooks/use-orientation.tsx: one boolean
 * state, `isLandscape`, recomputed on resize and on an orientation change.
 */
module UseOrientation {
  import opened Common
  import UseBackground

  /** The value `updateOrientation` stores. */
  function IsLandscape(screen: Screen): bool
  {
    match screen.orientationType
    case Some(t) => if t != "" then StartsWith(t, "landscape") else screen.innerWidth > screen.innerHeight
    case None => screen.innerWidth > screen.innerHeight
  }

  /** Both hooks decide the orientation the same way for every screen. */
  lemma AgreesWithDetectOrientation(screen: Screen)
    ensures IsLandscape(screen) <==> UseBackground.DetectOrientation(screen) == UseBackground.Landscape
  {
  }

  /** Without an orientation type, equal width and height count as portrait. */
  lemma SquareViewportIsPortrait(screen: Screen)
    requires OrEmpty(screen.orientationType) == "" && screen.innerWidth == screen.innerHeight
    ensures !IsLandscape(screen)
  {
  }

  class Orientation {
    var isLandscape: bool

    /** `useState(false)`: portrait until the first update. */
    constructor ()
      ensures !isLandscape
    {
      isLandscape := false;
    }

    /** `updateOrientation()`. */
    method UpdateOrientation(screen: Screen)
      modifies this
      ensures isLandscape == IsLandscape(screen)
      ensures isLandscape <==> UseBackground.DetectOrientation(screen) == UseBackground.Landscape
    {
      var orientation := screen.orientationType;
      if orientation.Some? && orientation.value != "" {
        isLandscape := StartsWith(orientation.value, "landscape");
      } else {
        isLandscape := screen.innerWidth > screen.innerHeight;
      }
      AgreesWithDetectOrientation(screen);
    }
  }
}
