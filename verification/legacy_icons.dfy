/**
 * The icon set of the older Rust site: the same icons as the current site, with Mastodon
 * where the current site has Bluesky, rendered by the same `icon` markup.
 */
module LegacyIcons {
  import opened Wrappers
  import Components

  /** `Icon`. */
  datatype Icon = Github | Mail | Mastodon | System | Menu | Moon | Sun | ArrowUp

  /** `Display for Icon`. */
  function IconName(i: Icon): string
  {
    match i
    case Github => "github"
    case Mail => "mail"
    case Mastodon => "mastodon"
    case System => "system"
    case Menu => "menu"
    case Moon => "moon"
    case Sun => "sun"
    case ArrowUp => "arrow-up"
  }

  /** The icon a displayed name stands for. */
  function ParseIcon(s: string): Option<Icon>
  {
    if s == "github" then Some(Github)
    else if s == "mail" then Some(Mail)
    else if s == "mastodon" then Some(Mastodon)
    else if s == "system" then Some(System)
    else if s == "menu" then Some(Menu)
    else if s == "moon" then Some(Moon)
    else if s == "sun" then Some(Sun)
    else if s == "arrow-up" then Some(ArrowUp)
    else None
  }

  /** `icon(name, size, title)`. */
  function IconSvg(i: Icon, size: nat, title: string): (r: Components.Svg)
    ensures |r.href| >= 6 && r.href[6..] == IconName(i)
  {
    Components.SvgOf(IconName(i), size, title)
  }

  /** Names and icons correspond one to one. */
  lemma IconNameRoundTrip(i: Icon, s: string)
    ensures ParseIcon(IconName(i)) == Some(i)
    ensures ParseIcon(s) == Some(i) ==> IconName(i) == s
  {
  }

  /** Two icons reference the same symbol only when they are the same icon. */
  lemma IconHrefsDistinct(a: Icon, b: Icon, size: nat, title: string)
    ensures IconSvg(a, size, title).href == IconSvg(b, size, title).href ==> a == b
  {
    IconNameRoundTrip(a, IconName(b));
    IconNameRoundTrip(b, IconName(b));
  }

  /** The icons both sites share display alike on both. */
  lemma SharedIconsAgree(i: Icon)
    requires i != Mastodon
    ensures var j := match i
              case Github => Components.Github case Mail => Components.Mail
              case System => Components.System case Menu => Components.Menu
              case Moon => Components.Moon case Sun => Components.Sun
              case ArrowUp => Components.ArrowUp case Mastodon => Components.Bluesky;
            IconName(i) == Components.IconName(j)
  {
  }
}
