/**
 * The settings context (app/context/SettingsContext.tsx): the current settings, the busy flag and
 * the theme classes of the document root. The server action that stores settings is a parameter:
 * `serverFails` says whether it throws.
 */
module Settings {
  import opened Wrappers
  import Seqs

  datatype Settings = Settings(themeColor: string, reducedMotion: bool)

  /** `Partial<Settings>`: an absent field is `None`. */
  datatype Partial = Partial(themeColor: Option<string>, reducedMotion: Option<bool>)

  const DEFAULT_SETTINGS: Settings := Settings("violet", false)
  const THEME_CLASSES: seq<string> := ["theme-violet", "theme-teal", "theme-orange"]

  /** `initialSettings || defaultSettings`. */
  function Initial(initialSettings: Option<Settings>): (r: Settings)
    ensures initialSettings.Some? ==> r == initialSettings.value
    ensures initialSettings.None? ==> r.themeColor == "violet" && !r.reducedMotion
  {
    if initialSettings.Some? then initialSettings.value else DEFAULT_SETTINGS
  }

  /** `{ ...settings, ...partial }`. */
  function Merge(s: Settings, p: Partial): Settings
  {
    Settings(if p.themeColor.Some? then p.themeColor.value else s.themeColor,
             if p.reducedMotion.Some? then p.reducedMotion.value else s.reducedMotion)
  }

  /** Two partial updates in a row, as one: the later field wins. */
  function Then(p: Partial, q: Partial): Partial
  {
    Partial(if q.themeColor.Some? then q.themeColor else p.themeColor,
            if q.reducedMotion.Some? then q.reducedMotion else p.reducedMotion)
  }

  /** A present field is overridden; an absent one is kept. */
  lemma MergeFields(s: Settings, p: Partial)
    ensures p.themeColor.Some? ==> Merge(s, p).themeColor == p.themeColor.value
    ensures p.themeColor.None? ==> Merge(s, p).themeColor == s.themeColor
    ensures p.reducedMotion.Some? ==> Merge(s, p).reducedMotion == p.reducedMotion.value
    ensures p.reducedMotion.None? ==> Merge(s, p).reducedMotion == s.reducedMotion
  {
  }

  /** Applying the same update twice is applying it once, and an empty update changes nothing. */
  lemma MergeIdempotent(s: Settings, p: Partial)
    ensures Merge(Merge(s, p), p) == Merge(s, p)
    ensures Merge(s, Partial(None, None)) == s
  {
  }

  /** Successive updates compose. */
  lemma MergeThen(s: Settings, p: Partial, q: Partial)
    ensures Merge(Merge(s, p), q) == Merge(s, Then(p, q))
  {
  }

  /** `classList.add(c)`: a token already present is not added again. */
  function AddClass(classes: seq<string>, c: string): (r: seq<string>)
    ensures c in r
    ensures forall x :: x in r <==> x in classes || x == c
  {
    if c in classes then classes else classes + [c]
  }

  /** The root classes after the theme effect. */
  function Themed(classes: seq<string>, themeColor: string): seq<string>
  {
    AddClass(Seqs.Filter(classes, (c: string) => c !in THEME_CLASSES), "theme-" + themeColor)
  }

  /**
   * After the effect the root carries the theme's class and no other theme class, and every
   * non-theme class it had is still there.
   */
  lemma ThemedClasses(classes: seq<string>, themeColor: string)
    ensures "theme-" + themeColor in Themed(classes, themeColor)
    ensures forall t :: t in THEME_CLASSES && t != "theme-" + themeColor ==> t !in Themed(classes, themeColor)
    ensures forall c :: c in classes && c !in THEME_CLASSES ==> c in Themed(classes, themeColor)
    ensures forall c :: c in Themed(classes, themeColor) ==>
      c == "theme-" + themeColor || (c in classes && c !in THEME_CLASSES)
  {
  }

  class SettingsProvider {
    var settings: Settings
    var isLoading: bool
    /** `document.documentElement.classList`. */
    var rootClasses: seq<string>

    constructor (initialSettings: Option<Settings>, rootClasses: seq<string>)
      ensures settings == Initial(initialSettings) && !isLoading && this.rootClasses == rootClasses
    {
      settings := Initial(initialSettings);
      isLoading := false;
      this.rootClasses := rootClasses;
    }

    /**
     * `updateSettings(partial)`: the merged settings are kept locally before the server call and
     * are not rolled back when it fails. `sent` is what the server action receives.
     */
    method UpdateSettings(p: Partial, serverFails: bool) returns (sent: Settings)
      modifies this
      ensures sent == Merge(old(settings), p) && settings == sent
      ensures !isLoading && rootClasses == old(rootClasses)
    {
      var updated := Merge(settings, p);
      settings := updated;
      isLoading := true;
      sent := updated;
      // A failing server call only raises a toast: the outcome does not depend on `serverFails`.
      isLoading := false;
    }

    /** The effect on `settings.themeColor`. */
    method ApplyTheme()
      modifies this
      ensures rootClasses == Themed(old(rootClasses), settings.themeColor)
      ensures "theme-" + settings.themeColor in rootClasses
      ensures settings == old(settings) && isLoading == old(isLoading)
    {
      var kept := Seqs.Filter(rootClasses, (c: string) => c !in THEME_CLASSES);
      rootClasses := AddClass(kept, "theme-" + settings.themeColor);
    }
  }
}
