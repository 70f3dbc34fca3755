/** The site header (`src/components/Header.tsx`): the navigation items,
    the route each one links to, which one is marked active for the current
    path, and the open/closed state of the mobile menu. */
module Header {
  import opened JsStrings

  const DesktopNavItems: seq<string> := ["Home", "Courses", "About", "Contact", "My Learning"]

  /** The mobile menu lists the desktop items and then the two account
      actions. */
  const MobileNavItems: seq<string> := DesktopNavItems + ["Log in", "Sign up"]

  /** `getHref`: "Home" is the root; any other item is `/` followed by the
      item lower-cased with each run of white space turned into `-`. */
  function GetHref(item: string): (r: string)
    ensures |r| >= 1 && r[0] == '/'
    ensures NoWhitespace(r)
    ensures item == "Home" ==> r == "/"
  {
    if item == "Home" then "/"
    else
      var tail := ReplaceRuns(ToLower(item), IsWhitespace, '-');
      assert forall i :: 0 <= i < |tail| ==> !IsWhitespace(tail[i]) by {
        forall i | 0 <= i < |tail| ensures !IsWhitespace(tail[i]) {
          assert tail[i] == '-' || !IsWhitespace(tail[i]);
        }
      }
      "/" + tail
  }

  /** An item made of words separated by single spaces links to the
      lower-cased words joined by `-`. */
  lemma GetHrefOfWords(ws: seq<string>)
    requires |ws| >= 1 && forall k :: 0 <= k < |ws| ==> IsWord(ws[k])
    requires Join(ws, " ") != "Home"
    ensures GetHref(Join(ws, " ")) == "/" + Join(LowerWords(ws), "-")
  {
    var item, lw := Join(ws, " "), LowerWords(ws);
    LowerJoinedWords(ws);
    DashLowerWords(ws);
    HrefFromParts(item, Join(lw, " "), Join(lw, "-"));
  }

  /** An item made of words separated by runs of white space of any
      length, with white space allowed before and after, links to the
      lower-cased words joined by single `-`; white space at either end
      leaves one `-` there. */
  lemma GetHrefOfSpacedWords(item: string, lead: string, ws: seq<string>, gs: seq<string>, trail: string)
    requires |ws| >= 1 && |gs| == |ws| - 1 && forall k :: 0 <= k < |ws| ==> IsWord(ws[k])
    requires forall k :: 0 <= k < |gs| ==> gs[k] != []
    requires forall k, i :: 0 <= k < |gs| && 0 <= i < |gs[k]| ==> IsWhitespace(gs[k][i])
    requires forall i :: 0 <= i < |lead| ==> IsWhitespace(lead[i])
    requires forall i :: 0 <= i < |trail| ==> IsWhitespace(trail[i])
    requires item == lead + Interleave(ws, gs) + trail
    ensures GetHref(item) == if item == "Home" then "/"
      else "/" + RunMark(lead, '-') + Join(LowerWords(ws), "-") + RunMark(trail, '-')
  {
    if item != "Home" {
      var lw := LowerWords(ws);
      ToLowerPadded(lead, ws, gs, trail);
      DashSpacedLowerWords(lead, ws, gs, trail);
      HrefFromParts(item, lead + Interleave(lw, gs) + trail, RunMark(lead, '-') + Join(lw, "-") + RunMark(trail, '-'));
      SlashThree(RunMark(lead, '-'), Join(lw, "-"), RunMark(trail, '-'));
    }
  }

  lemma SlashThree(a: string, b: string, c: string)
    ensures "/" + (a + b + c) == "/" + a + b + c
  {
  }

  lemma DashSpacedLowerWords(lead: string, ws: seq<string>, gs: seq<string>, trail: string)
    requires |ws| >= 1 && |gs| == |ws| - 1 && forall k :: 0 <= k < |ws| ==> IsWord(ws[k])
    requires forall k :: 0 <= k < |gs| ==> gs[k] != []
    requires forall k, i :: 0 <= k < |gs| && 0 <= i < |gs[k]| ==> IsWhitespace(gs[k][i])
    requires forall i :: 0 <= i < |lead| ==> IsWhitespace(lead[i])
    requires forall i :: 0 <= i < |trail| ==> IsWhitespace(trail[i])
    ensures ReplaceRuns(lead + Interleave(LowerWords(ws), gs) + trail, IsWhitespace, '-')
         == RunMark(lead, '-') + Join(LowerWords(ws), "-") + RunMark(trail, '-')
  {
    var lw := LowerWords(ws);
    LowerWordsAreLower(ws);
    forall k, i | 0 <= k < |lw| && 0 <= i < |lw[k]| ensures !IsWhitespace(lw[k][i]) {
      LowerWordCharIsPlain(lw[k], i);
    }
    ReplaceRunsPadded(lead, lw, gs, trail, IsWhitespace, '-');
  }

  /** A doubled space between the words changes nothing. */
  lemma MyLearningDoubleSpaceHref()
    ensures GetHref("My  Learning") == "/my-learning"
  {
    var ws, gs := ["My", "Learning"], ["  "];
    DoubleSpaceParts();
    GetHrefOfSpacedWords("My  Learning", "", ws, gs, "");
    DoubleSpaceLower();
    MyLearningRoute(Join(["my", "learning"], "-"));
  }

  lemma DoubleSpaceParts()
    ensures IsWord("My") && IsWord("Learning") && IsWhitespace(' ')
    ensures "My  Learning" == "" + Interleave(["My", "Learning"], ["  "]) + ""
    ensures "My  Learning" != "Home"
  {
    assert Interleave(["My", "Learning"], ["  "]) == "My" + "  " + "Learning";
    assert |"My  Learning"| != |"Home"|;
  }

  lemma DoubleSpaceLower()
    ensures LowerWords(["My", "Learning"]) == ["my", "learning"]
  {
    assert ToLower("My") == "my";
    assert ToLower("Learning") == "learning";
  }

  lemma MyLearningRoute(j: string)
    requires j == Join(["my", "learning"], "-")
    ensures "/" + RunMark("", '-') + j + RunMark("", '-') == "/my-learning"
  {
    assert j == "my" + "-" + "learning";
  }

  lemma HrefFromParts(item: string, lower: string, dashed: string)
    requires item != "Home" && ToLower(item) == lower
    requires ReplaceRuns(lower, IsWhitespace, '-') == dashed
    ensures GetHref(item) == "/" + dashed
  {
  }

  lemma LowerJoinedWords(ws: seq<string>)
    requires |ws| >= 1
    ensures ToLower(Join(ws, " ")) == Join(LowerWords(ws), " ")
  {
    ToLowerJoin(ws, " ");
    LowerLiteral(" ", " ");
  }

  lemma DashLowerWords(ws: seq<string>)
    requires |ws| >= 1 && forall k :: 0 <= k < |ws| ==> IsWord(ws[k])
    ensures ReplaceRuns(Join(LowerWords(ws), " "), IsWhitespace, '-') == Join(LowerWords(ws), "-")
  {
    LowerWordsAreLower(ws);
    DashWords(LowerWords(ws));
  }

  lemma DashWords(lw: seq<string>)
    requires |lw| >= 1 && forall k :: 0 <= k < |lw| ==> IsLowerWord(lw[k])
    ensures ReplaceRuns(Join(lw, " "), IsWhitespace, '-') == Join(lw, "-")
  {
    forall k, i | 0 <= k < |lw| && 0 <= i < |lw[k]| ensures !IsWhitespace(lw[k][i]) {
      LowerWordCharIsPlain(lw[k], i);
    }
    ReplaceRunsJoin(lw, ' ', IsWhitespace, '-');
  }

  lemma LowerWordCharIsPlain(w: string, i: int)
    requires IsLowerWord(w) && 0 <= i < |w|
    ensures !IsWhitespace(w[i])
  {
  }

  /** The route of an item of two words. */
  lemma GetHrefOfTwoWords(item: string, a: string, b: string)
    requires IsWord(a) && IsWord(b) && item == a + " " + b
    ensures GetHref(item) == "/" + ToLower(a) + "-" + ToLower(b)
  {
    var ws := [a, b];
    assert Join(ws, " ") == a + " " + b;
    assert Join(LowerWords(ws), "-") == ToLower(a) + "-" + ToLower(b);
    assert a + " " + b != "Home" by {
      assert (a + " " + b)[|a|] == ' ';
      assert forall i :: 0 <= i < 4 ==> "Home"[i] != ' ';
    }
    GetHrefOfWords(ws);
  }

  /** A single word links to itself lower-cased. */
  lemma GetHrefOfWord(w: string)
    requires IsWord(w) && w != "Home"
    ensures GetHref(w) == "/" + ToLower(w)
  {
    GetHrefOfWords([w]);
  }

  /** The route of a word, given character by character. */
  lemma WordHref(w: string, route: string)
    requires w != "Home" && w != [] && |route| == |w| + 1 && route[0] == '/'
    requires forall i :: 0 <= i < |w| ==> IsAlnum(w[i]) && LowerChar(w[i]) == route[i + 1]
    ensures GetHref(w) == route
  {
    var lw := route[1..];
    LowerLiteral(w, lw);
    GetHrefOfWord(w);
    assert route == "/" + lw;
  }

  /** The routes of the five desktop items. */
  lemma DesktopHrefs()
    ensures GetHref("Home") == "/"
    ensures GetHref("Courses") == "/courses"
    ensures GetHref("About") == "/about"
    ensures GetHref("Contact") == "/contact"
    ensures GetHref("My Learning") == "/my-learning"
  {
    CoursesHref();
    AboutHref();
    ContactHref();
    MyLearningHref();
  }

  lemma CoursesHref()
    ensures GetHref("Courses") == "/courses"
  {
    WordHref("Courses", "/courses");
  }

  lemma AboutHref()
    ensures GetHref("About") == "/about"
  {
    WordHref("About", "/about");
  }

  lemma ContactHref()
    ensures GetHref("Contact") == "/contact"
  {
    WordHref("Contact", "/contact");
  }

  lemma MyLearningHref()
    ensures GetHref("My Learning") == "/my-learning"
  {
    TwoWordHref("My Learning", "/my-learning", 2);
  }

  /** The route of two words separated by the space at index `k`, given
      character by character. */
  lemma TwoWordHref(item: string, route: string, k: int)
    requires 0 < k < |item| - 1 && item[k] == ' '
    requires |route| == |item| + 1 && route[0] == '/' && route[k + 1] == '-'
    requires forall i :: 0 <= i < |item| && i != k ==> IsAlnum(item[i]) && LowerChar(item[i]) == route[i + 1]
    ensures GetHref(item) == route
  {
    WordPart(item, route, 0, k);
    WordPart(item, route, k + 1, |item|);
    SplitAround(item, k, ' ');
    RouteOfParts(route, k);
    HrefOfParts(item, item[..k], item[k + 1..], route[1..k + 1], route[k + 2..], route);
  }

  lemma HrefOfParts(item: string, a: string, b: string, la: string, lb: string, route: string)
    requires IsWord(a) && IsWord(b) && item == a + " " + b
    requires ToLower(a) == la && ToLower(b) == lb && route == "/" + la + "-" + lb
    ensures GetHref(item) == route
  {
    GetHrefOfTwoWords(item, a, b);
  }

  lemma RouteOfParts(route: string, k: int)
    requires 0 <= k && k + 1 < |route| && route[0] == '/' && route[k + 1] == '-'
    ensures route == "/" + route[1..k + 1] + "-" + route[k + 2..]
  {
    SplitAround(route, k + 1, '-');
    assert route[..k + 1] == "/" + route[1..k + 1];
  }

  /** A stretch of an item spelled out in its route is a word, whose
      lower-case form is the matching stretch of the route. */
  lemma WordPart(item: string, route: string, lo: int, hi: int)
    requires 0 <= lo < hi <= |item| && |route| == |item| + 1
    requires forall i :: lo <= i < hi ==> IsAlnum(item[i]) && LowerChar(item[i]) == route[i + 1]
    ensures IsWord(item[lo..hi]) && ToLower(item[lo..hi]) == route[lo + 1..hi + 1]
  {
    LowerLiteral(item[lo..hi], route[lo + 1..hi + 1]);
  }

  lemma SplitAround(s: string, k: int, c: char)
    requires 0 <= k < |s| && s[k] == c
    ensures s == s[..k] + [c] + s[k + 1..]
  {
  }

  lemma LowerLiteral(s: string, t: string)
    requires |s| == |t| && forall i :: 0 <= i < |s| ==> LowerChar(s[i]) == t[i]
    ensures ToLower(s) == t
  {
  }

  /** `pathname === href` */
  predicate IsActive(pathname: string, item: string) {
    pathname == GetHref(item)
  }

  /** The desktop items link to different routes, so at most one of them is
      marked active for any path. */
  lemma AtMostOneActive(pathname: string)
    ensures forall i, j :: 0 <= i < j < |DesktopNavItems| ==>
      !(IsActive(pathname, DesktopNavItems[i]) && IsActive(pathname, DesktopNavItems[j]))
  {
    forall i, j | 0 <= i < j < |DesktopNavItems|
      ensures GetHref(DesktopNavItems[i]) != GetHref(DesktopNavItems[j])
    {
      DesktopHrefAt(i);
      DesktopHrefAt(j);
      RoutesDistinct(i, j);
    }
  }

  lemma RoutesDistinct(i: int, j: int)
    requires 0 <= i < j < |DesktopRoutes|
    ensures DesktopRoutes[i] != DesktopRoutes[j]
  {
    assert |DesktopRoutes[i]| != |DesktopRoutes[j]| || DesktopRoutes[i][3] != DesktopRoutes[j][3];
  }

  const DesktopRoutes: seq<string> := ["/", "/courses", "/about", "/contact", "/my-learning"]

  lemma DesktopHrefAt(k: int)
    requires 0 <= k < |DesktopNavItems|
    ensures GetHref(DesktopNavItems[k]) == DesktopRoutes[k]
  {
    if k == 0 {
    } else if k == 1 {
      CoursesHref();
    } else if k == 2 {
      AboutHref();
    } else if k == 3 {
      ContactHref();
    } else {
      MyLearningHref();
    }
  }

  /** The mobile menu's account items, as written, link to routes built by
      `getHref`. */
  lemma MobileAuthHrefsAsWritten()
    ensures GetHref("Log in") == "/log-in"
    ensures GetHref("Sign up") == "/sign-up"
  {
    LogInHref();
    SignUpHref();
  }

  lemma LogInHref()
    ensures GetHref("Log in") == "/log-in"
  {
    TwoWordHref("Log in", "/log-in", 3);
  }

  lemma SignUpHref()
    ensures GetHref("Sign up") == "/sign-up"
  {
    TwoWordHref("Sign up", "/sign-up", 4);
  }

  /** The desktop account buttons' routes. */
  const LoginRoute: string := "/login"
  const RegisterRoute: string := "/register"

  /** On mobile, "Log in" and "Sign up" lead elsewhere than the desktop
      buttons with the same labels. */
  lemma MobileAuthDiffersFromDesktop()
    ensures GetHref("Log in") != LoginRoute
    ensures GetHref("Sign up") != RegisterRoute
  {
    MobileAuthHrefsAsWritten();
  }

  /** The evidently intended mobile route: the account items go where the
      desktop buttons go, every other item as `getHref` says. */
  function MobileHref(item: string): (r: string)
    ensures item == "Log in" ==> r == LoginRoute
    ensures item == "Sign up" ==> r == RegisterRoute
    ensures item != "Log in" && item != "Sign up" ==> r == GetHref(item)
  {
    if item == "Log in" then LoginRoute
    else if item == "Sign up" then RegisterRoute
    else GetHref(item)
  }

  /** With the corrected routes, every mobile item leads where the desktop
      header leads for the same label. */
  lemma MobileMatchesDesktop()
    ensures forall i :: 0 <= i < |DesktopNavItems| ==> MobileHref(MobileNavItems[i]) == GetHref(DesktopNavItems[i])
    ensures MobileHref(MobileNavItems[5]) == LoginRoute && MobileHref(MobileNavItems[6]) == RegisterRoute
  {
    forall i | 0 <= i < |DesktopNavItems|
      ensures MobileHref(MobileNavItems[i]) == GetHref(DesktopNavItems[i])
    {
      NotAnAuthItem(i);
    }
  }

  lemma NotAnAuthItem(i: int)
    requires 0 <= i < |DesktopNavItems|
    ensures MobileNavItems[i] == DesktopNavItems[i]
    ensures DesktopNavItems[i] != "Log in" && DesktopNavItems[i] != "Sign up"
  {
  }

  /** How a mobile item is styled: "Sign up" always as the call-to-action
      button, any other item as active or plain. */
  datatype MobileStyle = SignUpButton | ActiveItem | PlainItem

  function MobileItemStyle(pathname: string, item: string): (r: MobileStyle)
    ensures r == SignUpButton <==> item == "Sign up"
    ensures r == ActiveItem <==> item != "Sign up" && IsActive(pathname, item)
  {
    if item == "Sign up" then SignUpButton
    else if IsActive(pathname, item) then ActiveItem
    else PlainItem
  }

  /** The header's own state: whether the mobile menu is open. */
  class HeaderMenu {
    var isMenuOpen: bool

    constructor ()
      ensures !isMenuOpen
    {
      isMenuOpen := false;
    }

    /** `toggleMenu` flips the state. */
    method ToggleMenu()
      modifies this
      ensures isMenuOpen == !old(isMenuOpen)
    {
      isMenuOpen := !isMenuOpen;
    }

    /** `handleLinkClick` closes the menu whatever its state. */
    method HandleLinkClick()
      modifies this
      ensures !isMenuOpen
    {
      isMenuOpen := false;
    }
  }
}
