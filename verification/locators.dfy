/** Locators: what a component piece hands to the selector builders (Components/BasicComponent.py). */
module Locators {

  /** Selenium's locator strategies, the `By` constants. */
  datatype By = Id | XPath | LinkText | PartialLinkText | Name | TagName | ClassName | CssSelector

  /**
   * One entry of a locator list as the builders receive it: a `(by, value)` tuple, a bare
   * string (read as a CSS selector), or Python's `None` (a piece constructed without a locator).
   */
  datatype Locator = Located(strategy: By, value: string) | Bare(css: string) | NoLocator

  /** Python truthiness: a 2-tuple is always truthy, a string when non-empty, `None` never. */
  predicate Truthy(l: Locator) {
    match l
    case Located(_, _) => true
    case Bare(s) => |s| > 0
    case NoLocator => false
  }
}
