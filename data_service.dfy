/** The client's shared state holder: the author's name and whether the author opened
    the document. */
module ClientData {

  /** `DataService`. */
  class DataService {
    var authorName: string
    var isAuthorOpened: bool

    /** A new service knows no author and has the flag off. */
    constructor ()
      ensures authorName == "" && !isAuthorOpened
    {
      authorName := "";
      isAuthorOpened := false;
    }

    /** `setAuthorName`: only the name changes. */
    method SetAuthorName(name: string)
      modifies this`authorName
      ensures authorName == name
    {
      authorName := name;
    }

    /** `getAuthorName`: the name most recently set. */
    method GetAuthorName() returns (name: string)
      ensures name == authorName
    {
      name := authorName;
    }

    /** `setIsAuthorOpened`: only the flag changes. */
    method SetIsAuthorOpened(isOpened: bool)
      modifies this`isAuthorOpened
      ensures isAuthorOpened == isOpened
    {
      isAuthorOpened := isOpened;
    }

    /** `getIsAuthorOpened`: the flag most recently set. */
    method GetIsAuthorOpened() returns (isOpened: bool)
      ensures isOpened == isAuthorOpened
    {
      isOpened := isAuthorOpened;
    }
  }

  /** A fresh service reads back the initial values. */
  method InitialValues() returns (name: string, isOpen: bool)
    ensures name == "" && !isOpen
  {
    var service := new DataService();
    name := service.GetAuthorName();
    isOpen := service.GetIsAuthorOpened();
  }

  /** Of two name settings the later wins, and setting the name leaves the flag alone. */
  method LatestAuthorNameWins(first: string, second: string, flag: bool) returns (name: string, isOpen: bool)
    ensures name == second && isOpen == flag
  {
    var service := new DataService();
    service.SetIsAuthorOpened(flag);
    service.SetAuthorName(first);
    service.SetAuthorName(second);
    name := service.GetAuthorName();
    isOpen := service.GetIsAuthorOpened();
  }

  /** Of two flag settings the later wins, and setting the flag leaves the name alone. */
  method LatestFlagWins(author: string, first: bool, second: bool) returns (name: string, isOpen: bool)
    ensures name == author && isOpen == second
  {
    var service := new DataService();
    service.SetAuthorName(author);
    service.SetIsAuthorOpened(first);
    service.SetIsAuthorOpened(second);
    name := service.GetAuthorName();
    isOpen := service.GetIsAuthorOpened();
  }
}
