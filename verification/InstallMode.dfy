/** Install profiles and their slot weights, in hundredths so that they are exact. */
module InstallMode {

  datatype Mode = ChatOnly | DevWithCi | MultiTenant {
    function DependantsWeight(): nat {
      match this case ChatOnly => 70 case DevWithCi => 50 case MultiTenant => 40
    }

    function ConfirmationsWeight(): nat {
      match this case ChatOnly => 10 case DevWithCi => 15 case MultiTenant => 40
    }

    function ExternalWeight(): nat {
      match this case ChatOnly => 20 case DevWithCi => 35 case MultiTenant => 20
    }
  }

  function Hundredths(n: nat): real {
    n as real / 100.0
  }
}
