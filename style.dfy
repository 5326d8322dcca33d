/** The layout constants of style.go (font sizes and paddings, in pixels). */
module Style {
  const MainFontSize: int := 18
  const CodeFontSize: int := 14
  const MenuFontSize: int := 14

  const TabXPadding: int := 13
  const TabYPadding: int := 4

  const MenuBarXPadding: int := 8
  const MenuBarYPadding: int := 4

  const MenuXPadding: int := 10
  const MenuYPadding: int := 10

  /** The height of a tab header, `MainFontSize + 2*tab_y_padding`. */
  const TabHeaderHeight: int := MainFontSize + 2 * TabYPadding

  /** The height of the menu bar, `MenuFontSize + 2*menu_bar_y_padding`. */
  const MenuBarHeight: int := MenuFontSize + 2 * MenuBarYPadding
}
