/** The administration window's state holder: the previewed command tuples,
    the selected device (as shown and as an address), the last known status of
    each device, and whether the backend runs. */
module AppStateModel {
  import opened Common
  import opened PolicyEngine

  /** One entry of `devices_status`: the status text and when the device was
      last seen (a timestamp, its calendar form left out). */
  datatype DeviceStatus = DeviceStatus(status: string, lastSeen: int)

  class AppState {
    var previewedCommands: seq<Generated>
    var selectedTargetIpDisplay: Option<string>
    var selectedTargetActualIp: Option<string>
    var devicesStatus: map<string, DeviceStatus>
    var isBackendRunning: bool

    /** A new state: nothing previewed, nothing selected, no device known, backend stopped. */
    constructor ()
      ensures previewedCommands == []
      ensures selectedTargetIpDisplay.None? && selectedTargetActualIp.None?
      ensures devicesStatus == map[]
      ensures !isBackendRunning
    {
      previewedCommands := [];
      selectedTargetIpDisplay := None;
      selectedTargetActualIp := None;
      devicesStatus := map[];
      isBackendRunning := false;
    }

    method SetPreviewedCommands(value: seq<Generated>)
      modifies this
      ensures previewedCommands == value
      ensures selectedTargetIpDisplay == old(selectedTargetIpDisplay) && selectedTargetActualIp == old(selectedTargetActualIp)
      ensures devicesStatus == old(devicesStatus) && isBackendRunning == old(isBackendRunning)
    {
      previewedCommands := value;
    }

    method SetSelectedTargetIpDisplay(value: Option<string>)
      modifies this
      ensures selectedTargetIpDisplay == value
      ensures previewedCommands == old(previewedCommands) && selectedTargetActualIp == old(selectedTargetActualIp)
      ensures devicesStatus == old(devicesStatus) && isBackendRunning == old(isBackendRunning)
    {
      selectedTargetIpDisplay := value;
    }

    method SetSelectedTargetActualIp(value: Option<string>)
      modifies this
      ensures selectedTargetActualIp == value
      ensures previewedCommands == old(previewedCommands) && selectedTargetIpDisplay == old(selectedTargetIpDisplay)
      ensures devicesStatus == old(devicesStatus) && isBackendRunning == old(isBackendRunning)
    {
      selectedTargetActualIp := value;
    }

    /** `update_device_status_entry`: that address's entry is replaced, no other. */
    method UpdateDeviceStatusEntry(ip: string, status: string, lastSeen: int)
      modifies this
      ensures devicesStatus == old(devicesStatus)[ip := DeviceStatus(status, lastSeen)]
      ensures GetDeviceStatusEntry(ip) == Some(DeviceStatus(status, lastSeen))
      ensures forall other :: other != ip ==> GetDeviceStatusEntry(other) == old(GetDeviceStatusEntry(other))
      ensures previewedCommands == old(previewedCommands)
      ensures selectedTargetIpDisplay == old(selectedTargetIpDisplay) && selectedTargetActualIp == old(selectedTargetActualIp)
      ensures isBackendRunning == old(isBackendRunning)
    {
      devicesStatus := devicesStatus[ip := DeviceStatus(status, lastSeen)];
    }

    /** `get_device_status_entry`: the entry, or `None` for an unknown address. */
    function GetDeviceStatusEntry(ip: string): (r: Option<DeviceStatus>)
      reads this
      ensures r.Some? <==> ip in devicesStatus
      ensures r.Some? ==> r.value == devicesStatus[ip]
    {
      Get(devicesStatus, ip)
    }

    /** `remove_device_status_entry`: deletes the entry when there is one, and does nothing otherwise. */
    method RemoveDeviceStatusEntry(ip: string)
      modifies this
      ensures devicesStatus == old(devicesStatus) - {ip}
      ensures ip !in old(devicesStatus) ==> devicesStatus == old(devicesStatus)
      ensures GetDeviceStatusEntry(ip) == None
      ensures forall other :: other != ip ==> GetDeviceStatusEntry(other) == old(GetDeviceStatusEntry(other))
      ensures previewedCommands == old(previewedCommands)
      ensures selectedTargetIpDisplay == old(selectedTargetIpDisplay) && selectedTargetActualIp == old(selectedTargetActualIp)
      ensures isBackendRunning == old(isBackendRunning)
    {
      if ip in devicesStatus {
        devicesStatus := devicesStatus - {ip};
      }
    }

    method ClearAllDeviceStatuses()
      modifies this
      ensures devicesStatus == map[]
      ensures previewedCommands == old(previewedCommands)
      ensures selectedTargetIpDisplay == old(selectedTargetIpDisplay) && selectedTargetActualIp == old(selectedTargetActualIp)
      ensures isBackendRunning == old(isBackendRunning)
    {
      devicesStatus := map[];
    }

    method ClearPreviewData()
      modifies this
      ensures previewedCommands == []
      ensures selectedTargetIpDisplay == old(selectedTargetIpDisplay) && selectedTargetActualIp == old(selectedTargetActualIp)
      ensures devicesStatus == old(devicesStatus) && isBackendRunning == old(isBackendRunning)
    {
      previewedCommands := [];
    }

    /** `clear_selection_data`: both selection fields become `None`; nothing else changes. */
    method ClearSelectionData()
      modifies this
      ensures selectedTargetIpDisplay.None? && selectedTargetActualIp.None?
      ensures previewedCommands == old(previewedCommands)
      ensures devicesStatus == old(devicesStatus) && isBackendRunning == old(isBackendRunning)
    {
      selectedTargetIpDisplay := None;
      selectedTargetActualIp := None;
    }
  }
}
