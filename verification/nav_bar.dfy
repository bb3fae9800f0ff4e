/** The Cupertino navigation bar's static components
    (cupertino/nav_bar.cs): which leading, back chevron, back label, middle
    and large title a bar gets from the user's widgets and the current
    route, how the toolbar's leading slot is assembled, the back label's
    text, and whether the bar fully obstructs what is behind it. */
module NavBar {
  import opened Wrappers
  import Painting
  import Utf16

  /** A title: a C# string, so its `Length` counts UTF-16 code units. */
  type TitleText = Utf16.Text16

  /** "Back", as code units. */
  const BackText: TitleText := [0x42, 0x61, 0x63, 0x6B]

  /** A user-supplied widget. */
  type Widget = nat

  /** The current `ModalRoute`: whether it is a `PageRoute` (and then
      whether a fullscreen dialog), whether it can pop, and whether it is a
      `CupertinoPageRoute` with its title and previous title. */
  datatype Route = Route(isPageRoute: bool, fullscreenDialog: bool, canPop: bool,
                         isCupertinoRoute: bool, title: Option<TitleText>, previousTitle: Option<TitleText>)

  /** What a component slot holds. */
  datatype Content =
    | User(widget: Widget)
    | CloseButton
    | Title(text: TitleText)
    | BackChevron
    | BackLabel(specifiedPreviousTitle: Option<TitleText>)

  /** `_derivedTitle`: the Cupertino route's title, when titles are implied. */
  function DerivedTitle(automaticallyImplyTitle: bool, route: Option<Route>): (r: Option<Content>)
    ensures r.Some? <==> automaticallyImplyTitle && route.Some? && route.value.isCupertinoRoute && route.value.title.Some?
    ensures r.Some? ==> r.value == Title(route.value.title.value)
  {
    if automaticallyImplyTitle && route.Some? && route.value.isCupertinoRoute && route.value.title.Some? then
      Some(Title(route.value.title.value))
    else None
  }

  /** A poppable fullscreen-dialog page route. */
  predicate IsPoppableDialog(route: Option<Route>) {
    route.Some? && route.value.isPageRoute && route.value.canPop && route.value.fullscreenDialog
  }

  /** `createLeading`: the user's leading widget, else a Close button for a
      poppable fullscreen dialog when leading is implied, else nothing. */
  function CreateLeading(userLeading: Option<Widget>, route: Option<Route>, automaticallyImplyLeading: bool): (r: Option<Content>)
    ensures userLeading.Some? ==> r == Some(User(userLeading.value))
    ensures userLeading.None? ==> (r == Some(CloseButton) <==> automaticallyImplyLeading && IsPoppableDialog(route))
    ensures userLeading.None? ==> (r.None? <==> !(automaticallyImplyLeading && IsPoppableDialog(route)))
  {
    if userLeading.Some? then Some(User(userLeading.value))
    else if automaticallyImplyLeading && IsPoppableDialog(route) then Some(CloseButton)
    else None
  }

  /** The condition shared by `createBackChevron` and `createBackLabel`. */
  predicate ImpliesBack(userLeading: Option<Widget>, route: Option<Route>, automaticallyImplyLeading: bool) {
    !(userLeading.Some? || !automaticallyImplyLeading || route.None? || !route.value.canPop ||
      (route.value.isPageRoute && route.value.fullscreenDialog))
  }

  /** `createBackChevron`. */
  function CreateBackChevron(userLeading: Option<Widget>, route: Option<Route>, automaticallyImplyLeading: bool): (r: Option<Content>)
    ensures r.Some? <==> userLeading.None? && automaticallyImplyLeading && route.Some? && route.value.canPop &&
                         !(route.value.isPageRoute && route.value.fullscreenDialog)
    ensures r.Some? ==> r.value == BackChevron
  {
    if ImpliesBack(userLeading, route, automaticallyImplyLeading) then Some(BackChevron) else None
  }

  /** `createBackLabel`. */
  function CreateBackLabel(userLeading: Option<Widget>, route: Option<Route>, automaticallyImplyLeading: bool,
                           previousPageTitle: Option<TitleText>): (r: Option<Content>)
    ensures r.Some? <==> userLeading.None? && automaticallyImplyLeading && route.Some? && route.value.canPop &&
                         !(route.value.isPageRoute && route.value.fullscreenDialog)
    ensures r.Some? ==> r.value == BackLabel(previousPageTitle)
  {
    if ImpliesBack(userLeading, route, automaticallyImplyLeading) then Some(BackLabel(previousPageTitle)) else None
  }

  /** `createMiddle`: the user's middle, else (on a large bar) the large
      title, else the derived title. */
  function CreateMiddle(userMiddle: Option<Widget>, userLargeTitle: Option<Widget>, large: bool,
                        automaticallyImplyTitle: bool, route: Option<Route>): (r: Option<Content>)
    ensures userMiddle.Some? ==> r == Some(User(userMiddle.value))
    ensures userMiddle.None? && large && userLargeTitle.Some? ==> r == Some(User(userLargeTitle.value))
    ensures userMiddle.None? && (!large || userLargeTitle.None?) ==> r == DerivedTitle(automaticallyImplyTitle, route)
  {
    var content := if userMiddle.Some? then Some(User(userMiddle.value)) else None;
    var content := if large && content.None? && userLargeTitle.Some? then Some(User(userLargeTitle.value)) else content;
    if content.Some? then content else DerivedTitle(automaticallyImplyTitle, route)
  }

  /** `createTrailing`: only the user's trailing widget. */
  function CreateTrailing(userTrailing: Option<Widget>): (r: Option<Content>)
    ensures r.Some? <==> userTrailing.Some?
    ensures r.Some? ==> r.value == User(userTrailing.value)
  {
    if userTrailing.Some? then Some(User(userTrailing.value)) else None
  }

  /** `createLargeTitle`: nothing on a small bar; on a large bar the user's
      large title or the derived title, one of which must exist. */
  function CreateLargeTitle(userLargeTitle: Option<Widget>, large: bool, automaticallyImplyTitle: bool,
                            route: Option<Route>): (r: Option<Content>)
    requires large ==> userLargeTitle.Some? || DerivedTitle(automaticallyImplyTitle, route).Some?
    ensures r.None? <==> !large
    ensures large && userLargeTitle.Some? ==> r == Some(User(userLargeTitle.value))
    ensures large && userLargeTitle.None? ==> r == DerivedTitle(automaticallyImplyTitle, route)
  {
    if !large then None
    else if userLargeTitle.Some? then Some(User(userLargeTitle.value))
    else DerivedTitle(automaticallyImplyTitle, route)
  }

  /** A route that can pop, with leading implied and no leading widget of
      the caller's, gets exactly one of a Close button and a back chevron;
      any leading component rules the chevron out. */
  lemma LeadingAndBackExclusive(userLeading: Option<Widget>, route: Option<Route>, automaticallyImplyLeading: bool)
    ensures CreateLeading(userLeading, route, automaticallyImplyLeading).Some? ==>
              CreateBackChevron(userLeading, route, automaticallyImplyLeading).None?
    ensures userLeading.None? && automaticallyImplyLeading && route.Some? && route.value.canPop ==>
              (CreateLeading(userLeading, route, automaticallyImplyLeading).Some? <==>
               CreateBackChevron(userLeading, route, automaticallyImplyLeading).None?)
  {
  }

  /** On a large bar without a middle widget of the caller's, the middle
      shows what the large title shows. */
  lemma MiddleFallsBackToLargeTitle(userMiddle: Option<Widget>, userLargeTitle: Option<Widget>,
                                    automaticallyImplyTitle: bool, route: Option<Route>)
    requires userLargeTitle.Some? || DerivedTitle(automaticallyImplyTitle, route).Some?
    ensures userMiddle.None? ==>
              CreateMiddle(userMiddle, userLargeTitle, true, automaticallyImplyTitle, route) ==
              CreateLargeTitle(userLargeTitle, true, automaticallyImplyTitle, route)
    ensures CreateMiddle(userMiddle, userLargeTitle, true, automaticallyImplyTitle, route).Some?
  {
  }

  /** A widget the caller gives for a slot is shown there unchanged, and the
      trailing slot never holds anything else. */
  lemma UserWidgetsWin(w: Widget, route: Option<Route>, automaticallyImplyLeading: bool,
                       automaticallyImplyTitle: bool, userLargeTitle: Option<Widget>, large: bool,
                       trailing: Option<Widget>)
    ensures CreateLeading(Some(w), route, automaticallyImplyLeading) == Some(User(w))
    ensures CreateMiddle(Some(w), userLargeTitle, large, automaticallyImplyTitle, route) == Some(User(w))
    ensures CreateTrailing(Some(w)) == Some(User(w))
    ensures CreateTrailing(trailing).Some? ==> CreateTrailing(trailing).value.User?
    ensures large ==> CreateLargeTitle(Some(w), large, automaticallyImplyTitle, route) == Some(User(w))
  {
  }

  /** The toolbar's leading slot. */
  datatype Leading = NoLeading | Component(content: Content) | BackButton(chevron: Content, backLabel: Content)

  /** `_PersistentNavigationBar.build`: the leading component, else the
      back button assembled from chevron and label when both exist. */
  function ToolbarLeading(leading: Option<Content>, backChevron: Option<Content>, backLabel: Option<Content>): (r: Leading)
    ensures leading.Some? ==> r == Component(leading.value)
    ensures r.BackButton? <==> leading.None? && backChevron.Some? && backLabel.Some?
    ensures r.BackButton? ==> r.chevron == backChevron.value && r.backLabel == backLabel.value
  {
    if leading.None? && backChevron.Some? && backLabel.Some? then BackButton(backChevron.value, backLabel.value)
    else if leading.Some? then Component(leading.value)
    else NoLeading
  }

  /** The leading slot a bar ends up with from its inputs. */
  function BarLeading(userLeading: Option<Widget>, route: Option<Route>, automaticallyImplyLeading: bool,
                      previousPageTitle: Option<TitleText>): Leading
  {
    ToolbarLeading(CreateLeading(userLeading, route, automaticallyImplyLeading),
                   CreateBackChevron(userLeading, route, automaticallyImplyLeading),
                   CreateBackLabel(userLeading, route, automaticallyImplyLeading, previousPageTitle))
  }

  /** The Close button and the back button exclude each other: a user
      leading always wins; otherwise a poppable fullscreen dialog gets Close,
      another poppable route the back button, and a route that cannot pop
      nothing. */
  lemma LeadingSlotCases(userLeading: Option<Widget>, route: Option<Route>, automaticallyImplyLeading: bool,
                         previousPageTitle: Option<TitleText>)
    ensures var l := BarLeading(userLeading, route, automaticallyImplyLeading, previousPageTitle);
            (userLeading.Some? ==> l == Component(User(userLeading.value))) &&
            (userLeading.None? ==>
              (l == Component(CloseButton) <==> automaticallyImplyLeading && IsPoppableDialog(route)) &&
              (l == BackButton(BackChevron, BackLabel(previousPageTitle)) <==>
                 ImpliesBack(userLeading, route, automaticallyImplyLeading)) &&
              (l == NoLeading <==> !automaticallyImplyLeading || route.None? || !route.value.canPop))
  {
  }

  /** What the back label shows. */
  datatype LabelView = EmptyBox | LabelText(text: TitleText)

  const MaxPreviousTitleLength := 12

  /** `_buildPreviousTitleWidget`: nothing for no title, "Back" for a title
      longer than twelve UTF-16 code units, else the title. */
  function PreviousTitleView(previousTitle: Option<TitleText>): (r: LabelView)
    ensures r == EmptyBox <==> previousTitle.None?
    ensures r.LabelText? ==> |r.text| <= MaxPreviousTitleLength
    ensures r.LabelText? ==> (r.text == previousTitle.value <==> |previousTitle.value| <= MaxPreviousTitleLength)
  {
    if previousTitle.None? then EmptyBox
    else if |previousTitle.value| > MaxPreviousTitleLength then LabelText(BackText)
    else LabelText(previousTitle.value)
  }

  /** `_BackLabel.build`: the specified previous title wins, else a
      Cupertino route's previous title, else an empty box. */
  function BackLabelView(specifiedPreviousTitle: Option<TitleText>, route: Route): (r: LabelView)
    ensures specifiedPreviousTitle.Some? ==> r == PreviousTitleView(specifiedPreviousTitle)
    ensures specifiedPreviousTitle.None? && !route.isCupertinoRoute ==> r == EmptyBox
    ensures specifiedPreviousTitle.None? && route.isCupertinoRoute ==> r == PreviousTitleView(route.previousTitle)
  {
    if specifiedPreviousTitle.Some? then PreviousTitleView(specifiedPreviousTitle)
    else if route.isCupertinoRoute then PreviousTitleView(route.previousTitle)
    else EmptyBox
  }

  /** A long title is never cut mid-way: the label is either the whole
      title or "Back". */
  lemma BackLabelWholeOrBack(title: TitleText, route: Route)
    ensures BackLabelView(Some(title), route) == LabelText(title) || BackLabelView(Some(title), route) == LabelText(BackText)
    ensures |title| > MaxPreviousTitleLength ==> BackLabelView(Some(title), route) == LabelText(BackText)
  {
  }

  /** The length test counts code units, not characters: seven emoji, each a
      surrogate pair, make fourteen units and the label reads "Back". */
  lemma SevenEmojiTitleReadsBack()
    ensures var emoji: TitleText := [0xD83D, 0xDE00];
            var title := emoji + emoji + emoji + emoji + emoji + emoji + emoji;
            |title| == 14 && PreviousTitleView(Some(title)) == LabelText(BackText)
  {
  }

  /** `fullObstruction`: unknown without a background colour, else whether
      the colour is fully opaque. */
  function FullObstruction(backgroundColor: Option<Painting.Color>): (r: Option<bool>)
    ensures r.None? <==> backgroundColor.None?
    ensures r.Some? ==> (r.value <==> backgroundColor.value.value >= 0xFF00_0000)
  {
    if backgroundColor.None? then None else Some(Painting.Alpha(backgroundColor.value) == 0xFF)
  }
}
