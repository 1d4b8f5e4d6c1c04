/**
 * The `useBackground` hook of src/hooks/use-background.ts: which background
 * image the page shows for the current orientation, and how that choice is
 * kept both in the hook's state and in the `--bg-image-url` CSS variable of
 * the document root.
 */
module UseBackground {
  import opened Common

  datatype Orientation = Landscape | Portrait

  /** The four build-time variables `NEXT_PUBLIC_BG_*`, none when unset. */
  datatype Env = Env(portraitLocal: Option<string>, portraitUrl: Option<string>,
                     landscapeLocal: Option<string>, landscapeUrl: Option<string>)

  /** The CSS custom property the hook writes. */
  const BgVariable := "--bg-image-url"

  /** `detectOrientation()`. */
  function DetectOrientation(screen: Screen): Orientation
  {
    var orientation := OrEmpty(screen.orientationType);
    if orientation != "" then
      (if StartsWith(orientation, "landscape") then Landscape else Portrait)
    else if screen.innerWidth > screen.innerHeight then Landscape
    else Portrait
  }

  /** The `image` of `updateBackground`: the local value of the orientation, else its URL value. */
  function ChooseImage(orientation: Orientation, env: Env): string
  {
    if orientation == Landscape then
      (if OrEmpty(env.landscapeLocal) != "" then OrEmpty(env.landscapeLocal) else OrEmpty(env.landscapeUrl))
    else
      (if OrEmpty(env.portraitLocal) != "" then OrEmpty(env.portraitLocal) else OrEmpty(env.portraitUrl))
  }

  /** `image ? \`url(${image})\` : null`, shared by `updateBackground` and `setBackground`. */
  function CssUrl(image: string): Option<string>
  {
    if image != "" then Some("url(" + image + ")") else None
  }

  /** The argument of a `url(...)` value. */
  function CssUrlArgument(value: string): string
    requires |value| >= 5
  {
    value[4..|value| - 1]
  }

  /** An orientation type, when present and not empty, decides on its own. */
  lemma DetectOrientationByType(screen: Screen)
    requires OrEmpty(screen.orientationType) != ""
    ensures DetectOrientation(screen) == Landscape <==> StartsWith(screen.orientationType.value, "landscape")
  {
  }

  /** Without an orientation type, a viewport is landscape only when wider than tall: a square one is portrait. */
  lemma DetectOrientationBySize(screen: Screen)
    requires OrEmpty(screen.orientationType) == ""
    ensures DetectOrientation(screen) == Landscape <==> screen.innerWidth > screen.innerHeight
  {
  }

  /**
   * The image comes from the variables of the orientation only, the local
   * value first; it is empty exactly when both of them are unset or empty.
   */
  lemma ChooseImageNeverMixes(orientation: Orientation, env: Env)
    ensures var local := OrEmpty(if orientation == Landscape then env.landscapeLocal else env.portraitLocal);
      var url := OrEmpty(if orientation == Landscape then env.landscapeUrl else env.portraitUrl);
      var image := ChooseImage(orientation, env);
      (local != "" ==> image == local) &&
      (local == "" ==> image == url) &&
      (image == "" <==> local == "" && url == "")
  {
  }

  /** A chosen image is wrapped as `url(image)`, and the wrapping gives the image back. */
  lemma CssUrlRoundTrip(image: string)
    ensures CssUrl(image).None? <==> image == ""
    ensures CssUrl(image).Some? ==>
      StartsWith(CssUrl(image).value, "url(") && EndsWith(CssUrl(image).value, ")") &&
      CssUrlArgument(CssUrl(image).value) == image
  {
    if image != "" {
      var v := "url(" + image + ")";
      assert v[..4] == "url(";
      assert v[4..|v| - 1] == image;
    }
  }

  /**
   * The hook's state: `backgroundImageUrl`, and the inline style properties
   * of `document.documentElement`.
   */
  class Background {
    var backgroundImageUrl: Option<string>
    var style: map<string, string>

    /** The state and the CSS variable say the same thing. */
    ghost predicate Synced()
      reads this
    {
      if backgroundImageUrl.Some? then BgVariable in style && style[BgVariable] == backgroundImageUrl.value
      else BgVariable !in style
    }

    /** The hook's first render: no image yet, the document's style as it is. */
    constructor (initialStyle: map<string, string>)
      ensures backgroundImageUrl == None && style == initialStyle
    {
      backgroundImageUrl := None;
      style := initialStyle;
    }

    /** Writes a formatted value to the state and to the CSS variable, or clears both. */
    method Apply(value: Option<string>)
      modifies this
      ensures Synced() && backgroundImageUrl == value
      ensures value.Some? ==> style == old(style)[BgVariable := value.value]
      ensures value.None? ==> style == old(style) - {BgVariable}
    {
      backgroundImageUrl := value;
      if value.Some? {
        style := style[BgVariable := value.value];
      } else {
        style := style - {BgVariable};
      }
    }

    /** `updateBackground()`, run on mount, on resize and on an orientation change. */
    method UpdateBackground(screen: Screen, env: Env)
      modifies this
      ensures Synced()
      ensures backgroundImageUrl == CssUrl(ChooseImage(DetectOrientation(screen), env))
      ensures backgroundImageUrl.Some? ==> style == old(style)[BgVariable := backgroundImageUrl.value]
      ensures backgroundImageUrl.None? ==> style == old(style) - {BgVariable}
    {
      var orientation := DetectOrientation(screen);
      var image := ChooseImage(orientation, env);
      var finalUrl := CssUrl(image);
      Apply(finalUrl);
    }

    /** `setBackground(url)`: a missing or empty url clears the background. */
    method SetBackground(url: Option<string>)
      modifies this
      ensures Synced()
      ensures backgroundImageUrl == CssUrl(OrEmpty(url))
      ensures OrEmpty(url) == "" ==> backgroundImageUrl == None && style == old(style) - {BgVariable}
      ensures OrEmpty(url) != "" ==>
        backgroundImageUrl == Some("url(" + url.value + ")") && style == old(style)[BgVariable := "url(" + url.value + ")"]
    {
      var formattedUrl := CssUrl(OrEmpty(url));
      Apply(formattedUrl);
    }
  }
}
